/** Printing writes texts of the grammar, so what was printed is read back. */
module JsonRoundTrip {
  import opened Bytes
  import opened Options
  import opened Utf8
  import opened Hexadecimal
  import opened Json
  import opened JsonObjects
  import opened JsonForms
  import opened JsonGrammar

  // ---- strings ---------------------------------------------------------------------

  lemma HexRead(x: nat)
    requires x < 16
    ensures HexValue(HexDigit(x)) == Some(x)
  {
  }

  /** The escape of a control character is read as that character. */
  lemma ControlRead(c: byte, rest: Text)
    requires c < 0x80
    ensures CodePoint([0x30, 0x30, HexDigit(c / 16), HexDigit(c % 16)] + rest) == Read([c], rest)
  {
    var s := [0x30, 0x30, HexDigit(c / 16), HexDigit(c % 16)] + rest;
    HexRead(c / 16);
    HexRead(c % 16);
    assert s[1..][1..][1..][1..] == rest;
    assert Hex(s[1..][1..][1..], 1, c / 16) == Read(c, rest);
    assert Hex(s[1..][1..], 2, 0) == Read(c, rest);
    assert Hex(s[1..], 3, 0) == Read(c, rest);
    assert Hex(s, 4, 0) == Read(c, rest);
  }

  /** A printed character, whatever it is, is read as itself. */
  lemma EscapedRead(c: byte, rest: Text)
    ensures Unquoted(Escaped(c) + rest) == Prepend([c], Unquoted(rest))
  {
    hide CodePoint, HexDigit;
    var d := Escaped(c);
    var s := d + rest;
    if |d| == 1 {
      assert s[1..] == rest;
    } else if |d| == 2 {
      assert s[2..] == rest;
    } else {
      assert s[2..] == d[2..] + rest;
      ControlRead(c, rest);
    }
  }

  /** Any bytes survive as a string. */
  lemma {:induction false} StringRead(s: Text)
    ensures Unquoted(AllEscaped(s)) == Some(s)
  {
    hide Escaped, Unquoted;
    if s == [] {
      NoneUnquoted();
    } else {
      EscapedRead(s[0], AllEscaped(s[1..]));
      StringRead(s[1..]);
      assert [s[0]] + s[1..] == s;
    }
  }

  lemma NoneUnquoted()
    ensures Unquoted([]) == Some([])
  {
  }

  // ---- numbers -----------------------------------------------------------------------

  lemma {:induction false} DigitsRead(n: nat)
    ensures AllDigits(Digits(n)) && Decimal(Digits(n)) == n
  {
    if n >= 10 {
      DigitsRead(n / 10);
      assert Digits(n)[..|Digits(n)| - 1] == Digits(n / 10);
    } else {
      assert Digits(n)[..0] == [];
    }
  }

  lemma NumberTextRead(n: int)
    requires -EXACT < n < EXACT
    ensures NumberOf(NumberText(n)) == Some(Number(n))
    ensures forall i | 0 <= i < |NumberText(n)| :: InNumber(NumberText(n)[i])
    ensures NumberText(n) != [] && (IsDigit(NumberText(n)[0]) || NumberText(n)[0] == MINUS)
  {
    var m := if n < 0 then -n else n;
    DigitsRead(m);
    if n < 0 {
      assert NumberText(n)[1..] == Digits(m);
    } else {
      assert NumberText(n)[0] != MINUS;
    }
  }

  // ---- members in order ------------------------------------------------------------------

  /** A key above all others goes to the end. */
  lemma {:induction false} InsertAbove(members: seq<Member>, m: Member)
    requires forall i | 0 <= i < |members| :: Less(members[i].key, m.key)
    ensures Insert(members, m) == members + [m]
  {
    if members != [] {
      LessAsymmetric(members[0].key, m.key);
      InsertAbove(members[1..], m);
    }
  }

  lemma InsertLast(members: seq<Member>, k: nat)
    requires k < |members| && Sorted(members)
    ensures Insert(members[..k], Member(members[k].key, members[k].value)) == members[..k + 1]
  {
    InsertAbove(members[..k], members[k]);
    assert members[..k] + [members[k]] == members[..k + 1];
  }

  // ---- how a value is printed ------------------------------------------------------------

  function TreeOf(v: Value, indent: int): Tree
    requires indent >= -1
    decreases v, 1, 0
  {
    match v
    case Null => Word(v)
    case Bool(_) => Word(v)
    case Number(n) => Numeric(NumberText(n))
    case Other(text) => Numeric(text)
    case String(s) => Quoted(AllEscaped(s))
    case Array(_) => List(SlotsOf(v, 0, indent), [])
    case Object(_) => Table(PairsOf(v, 0, indent), [])
  }

  /** The items from the `k`-th on; behind the last one the line ends. */
  function SlotsOf(v: Value, k: nat, indent: int): (items: seq<Slot>)
    requires v.Array? && k <= |v.items| && indent >= -1
    ensures |items| == |v.items| - k
    decreases v, 0, |v.items| - k
  {
    if k == |v.items| then []
    else
      var after := if k + 1 == |v.items| then Indent(indent) else [];
      [Slot(Indent(Deeper(indent)), TreeOf(v.items[k], Deeper(indent)), after)] + SlotsOf(v, k + 1, indent)
  }

  function PairsOf(v: Value, k: nat, indent: int): (pairs: seq<Entry>)
    requires v.Object? && k <= |v.members| && indent >= -1
    ensures |pairs| == |v.members| - k
    decreases v, 0, |v.members| - k
  {
    if k == |v.members| then []
    else
      var m, after := v.members[k], if k + 1 == |v.members| then Indent(indent) else [];
      [Entry(Indent(Deeper(indent)), AllEscaped(m.key), [],
            Slot(if indent != -1 then [SPACE] else [], TreeOf(m.value, Deeper(indent)), after))] + PairsOf(v, k + 1, indent)
  }

  /** What is printed is a text of the grammar, and means the value. */
  lemma {:induction false} TreePrinted(v: Value, indent: int)
    requires Plain(v) && indent >= -1
    ensures var t := TreeOf(v, indent); Proper(t) && Meaning(t) == v && Source(t) == Body(v, indent)
    decreases v, 1, 0
  {
    hide AllEscaped, NumberText, NumberOf, Unquoted, InNumber, SlotsOf, PairsOf, ItemsSource, PairsSource, ItemsText, MembersText,
      Meanings, Entered, White, SlotsText, PairsText;
    Words();
    Marks();
    match v
    case Null =>
    case Bool(_) =>
    case Number(n) => NumberTextRead(n);
    case String(s) => StringRead(s);
    case Array(items) =>
      SlotsPrinted(v, 0, indent);
      ArrayPrinted(v, indent);
    case Object(members) =>
      PairsPrinted(v, 0, indent);
      ObjectPrinted(v, indent);
  }

  lemma ArrayPrinted(v: Value, indent: int)
    requires v.Array? && indent >= -1 && ItemsText(v, 0, indent) == SlotsText(v, 0, indent)
    requires forall x | x in SlotsOf(v, 0, indent) :: White(x.before) && White(x.after) && Proper(x.tree)
    requires Meanings(SlotsOf(v, 0, indent)) == v.items[0..]
    ensures var t := TreeOf(v, indent); Proper(t) && Meaning(t) == v && Source(t) == Body(v, indent)
  {
    hide SlotsOf, ItemsSource, ItemsText, Meanings;
    Punctuation();
    assert v.items[0..] == v.items;
  }

  lemma ObjectPrinted(v: Value, indent: int)
    requires v.Object? && indent >= -1 && MembersText(v, 0, indent) == PairsText(v, 0, indent)
    requires forall p | p in PairsOf(v, 0, indent) :: Spaced(p) && Unquoted(p.key).Some? && Proper(p.slot.tree)
    requires Entered(PairsOf(v, 0, indent), v.members[..0]) == v.members
    ensures var t := TreeOf(v, indent); Proper(t) && Meaning(t) == v && Source(t) == Body(v, indent)
  {
    hide PairsOf, PairsSource, MembersText, Entered, Unquoted, Spaced;
    Punctuation();
    assert v.members[..0] == [];
  }

  lemma NoWhiteIsWhite()
    ensures White([]) && White([SPACE])
  {
  }

  lemma IndentIsWhite(indent: int)
    ensures White(Indent(indent))
  {
  }

  /** The text of the items from the `k`-th on, as the grammar has it. */
  function SlotsText(v: Value, k: nat, indent: int): Text
    requires v.Array? && k <= |v.items| && indent >= -1
  {
    (if k == 0 then [] else if k == |v.items| then Indent(indent) else [COMMA])
    + (if k == |v.items| then [] else ItemsSource(SlotsOf(v, k, indent))) + [CLOSE_ARRAY]
  }

  lemma {:induction false} SlotsPrinted(v: Value, k: nat, indent: int)
    requires v.Array? && Plain(v) && k <= |v.items| && indent >= -1
    ensures forall x | x in SlotsOf(v, k, indent) :: White(x.before) && White(x.after) && Proper(x.tree)
    ensures Meanings(SlotsOf(v, k, indent)) == v.items[k..] && ItemsText(v, k, indent) == SlotsText(v, k, indent)
    decreases v, 0, |v.items| - k
  {
    hide Indent, White, Proper, Meaning, Source, Body, TreeOf, ItemsText, SlotsText, ItemsSource;
    if k < |v.items| {
      TreePrinted(v.items[k], Deeper(indent));
      SlotsPrinted(v, k + 1, indent);
      ItemPrinted(v, k, indent);
      IndentIsWhite(indent);
      IndentIsWhite(Deeper(indent));
      NoWhiteIsWhite();
      assert SlotsOf(v, k, indent)[1..] == SlotsOf(v, k + 1, indent);
      assert v.items[k..] == [v.items[k]] + v.items[k + 1..];
    } else {
      NoItemsPrinted(v, indent);
    }
  }

  lemma NoItemsPrinted(v: Value, indent: int)
    requires v.Array? && indent >= -1
    ensures ItemsText(v, |v.items|, indent) == SlotsText(v, |v.items|, indent)
  {
    hide Indent;
  }

  lemma ItemPrinted(v: Value, k: nat, indent: int)
    requires v.Array? && k < |v.items| && indent >= -1
    requires Source(TreeOf(v.items[k], Deeper(indent))) == Body(v.items[k], Deeper(indent))
    requires ItemsText(v, k + 1, indent) == SlotsText(v, k + 1, indent)
    ensures ItemsText(v, k, indent) == SlotsText(v, k, indent)
  {
    hide Indent, Source, Body, TreeOf, SlotSource;
    Marks();
    var items, others := SlotsOf(v, k, indent), SlotsOf(v, k + 1, indent);
    assert items[1..] == others;
    assert ItemsText(v, k, indent) == (if k > 0 then [COMMA] else []) + ItemText(v, k, indent) + ItemsText(v, k + 1, indent);
    assert ItemsSource(items) == SlotSource(items[0]) + if |items| == 1 then [] else [COMMA] + ItemsSource(others);
    SlotPrinted(v, k, indent);
    Regrouped(if k > 0 then [COMMA] else [], ItemText(v, k, indent), Indent(indent), if others == [] then [] else ItemsSource(others),
              others == [], CLOSE_ARRAY);
  }

  /** The line end belongs to what it follows, and the comma to what it precedes. */
  lemma Regrouped(comma: Text, first: Text, line: Text, others: Text, last: bool, close: byte)
    ensures comma + first + ((if last then line else [COMMA]) + (if last then [] else others) + [close])
         == comma + (first + (if last then line else []) + (if last then [] else [COMMA] + others)) + [close]
  {
  }

  lemma SlotPrinted(v: Value, k: nat, indent: int)
    requires v.Array? && k < |v.items| && indent >= -1
    requires Source(TreeOf(v.items[k], Deeper(indent))) == Body(v.items[k], Deeper(indent))
    ensures SlotSource(SlotsOf(v, k, indent)[0]) == ItemText(v, k, indent) + if k + 1 == |v.items| then Indent(indent) else []
  {
    hide Indent, Source, Body, TreeOf;
  }

  /** The text of the members from the `k`-th on, as the grammar has it. */
  function PairsText(v: Value, k: nat, indent: int): Text
    requires v.Object? && k <= |v.members| && indent >= -1
  {
    (if k == 0 then [] else if k == |v.members| then Indent(indent) else [COMMA])
    + (if k == |v.members| then [] else PairsSource(PairsOf(v, k, indent))) + [CLOSE_OBJECT]
  }

  lemma {:induction false} PairsPrinted(v: Value, k: nat, indent: int)
    requires v.Object? && Plain(v) && k <= |v.members| && indent >= -1
    ensures forall p | p in PairsOf(v, k, indent) :: Spaced(p) && Unquoted(p.key).Some? && Proper(p.slot.tree)
    ensures Entered(PairsOf(v, k, indent), v.members[..k]) == v.members && MembersText(v, k, indent) == PairsText(v, k, indent)
    decreases v, 0, |v.members| - k
  {
    hide Indent, White, Proper, Meaning, Source, Body, TreeOf, Unquoted, AllEscaped, Insert, Less, Sorted, MembersText, PairsText, PairsSource;
    if k < |v.members| {
      var m := v.members[k];
      TreePrinted(m.value, Deeper(indent));
      PairsPrinted(v, k + 1, indent);
      MemberPrinted(v, k, indent);
      StringRead(m.key);
      InsertLast(v.members, k);
      IndentIsWhite(indent);
      IndentIsWhite(Deeper(indent));
      NoWhiteIsWhite();
      assert PairsOf(v, k, indent)[1..] == PairsOf(v, k + 1, indent);
    } else {
      NoMembersPrinted(v, indent);
      assert v.members[..k] == v.members;
    }
  }

  lemma NoMembersPrinted(v: Value, indent: int)
    requires v.Object? && indent >= -1
    ensures MembersText(v, |v.members|, indent) == PairsText(v, |v.members|, indent)
  {
    hide Indent;
  }

  lemma MemberPrinted(v: Value, k: nat, indent: int)
    requires v.Object? && k < |v.members| && indent >= -1
    requires Source(TreeOf(v.members[k].value, Deeper(indent))) == Body(v.members[k].value, Deeper(indent))
    requires MembersText(v, k + 1, indent) == PairsText(v, k + 1, indent)
    ensures MembersText(v, k, indent) == PairsText(v, k, indent)
  {
    hide Indent, Source, Body, TreeOf, PairSource, AllEscaped;
    Marks();
    var pairs, others := PairsOf(v, k, indent), PairsOf(v, k + 1, indent);
    assert pairs[1..] == others;
    assert MembersText(v, k, indent) == (if k > 0 then [COMMA] else []) + MemberText(v, k, indent) + MembersText(v, k + 1, indent);
    assert PairsSource(pairs) == PairSource(pairs[0]) + if |pairs| == 1 then [] else [COMMA] + PairsSource(others);
    PairPrinted(v, k, indent);
    Regrouped(if k > 0 then [COMMA] else [], MemberText(v, k, indent), Indent(indent), if others == [] then [] else PairsSource(others),
              others == [], CLOSE_OBJECT);
  }

  lemma PairPrinted(v: Value, k: nat, indent: int)
    requires v.Object? && k < |v.members| && indent >= -1
    requires Source(TreeOf(v.members[k].value, Deeper(indent))) == Body(v.members[k].value, Deeper(indent))
    ensures MemberText(v, k, indent) + (if k + 1 == |v.members| then Indent(indent) else []) == PairSource(PairsOf(v, k, indent)[0])
  {
    hide Indent, Source, Body, TreeOf, AllEscaped;
    Marks();
  }

  // ---- the round trip --------------------------------------------------------------------

  /** Whatever is printed can be read, and reading stops right after it. */
  lemma ValueRead(v: Value, indent: int, rest: Text)
    requires Plain(v) && indent >= -1 && Ends(rest)
    ensures ValueFrom(Body(v, indent) + rest) == Read(v, rest)
  {
    hide ValueFrom, Proper, Source, Meaning;
    TreePrinted(v, indent);
    NoWhiteIsWhite();
    ValueReads([], TreeOf(v, indent), rest);
    assert [] + (Body(v, indent) + rest) == Body(v, indent) + rest;
  }

  /** Every plain value survives printing and reading. A compact text is read to
      its end; of an indented one, the final line break is left. */
  lemma RoundTrip(v: Value, prettify: bool)
    requires Plain(v)
    ensures ValueFrom(Printed(v, if prettify then 0 else -1)) == Read(v, if prettify then [NEWLINE] else [])
  {
    hide Body, ValueFrom;
    ValueRead(v, if prettify then 0 else -1, if prettify then [NEWLINE] else []);
  }
}
