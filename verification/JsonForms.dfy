/** The texts that values are printed as, spelled out, and the escapes of
    section 7 of RFC 8259. */
module JsonForms {
  import opened Bytes
  import opened Options
  import opened Hexadecimal
  import opened Json

  function Ascii(s: string): Text
    requires forall i | 0 <= i < |s| :: s[i] < 128 as char
  {
    seq(|s|, i requires 0 <= i < |s| => s[i] as int)
  }

  /** The simple values, at any indentation. */
  lemma SimpleForms(indent: int)
    requires indent >= -1
    ensures Body(Null, indent) == Ascii("null") && Body(Bool(true), indent) == Ascii("true") && Body(Bool(false), indent) == Ascii("false")
    ensures Body(Number(-120), indent) == Ascii("-120") && Body(Number(0), indent) == Ascii("0")
    ensures Body(String(Ascii("a1")), indent) == Ascii("\"a1\"")
    ensures Body(Array([]), indent) == Ascii("[]") && Body(Object([]), indent) == Ascii("{}")
  {
    assert Digits(120) == Digits(12) + [0x30] == [0x31, 0x32, 0x30];
    assert AllEscaped([0x61, 0x31]) == [0x61] + AllEscaped([0x31]) == [0x61, 0x31] by {
      assert [0x61, 0x31][1..] == [0x31] && [0x31][1..] == [];
    }
    assert Ascii("a1") == [0x61, 0x31];
  }

  /** Arrays and objects, compact. */
  lemma CompactForms(x: Value, y: Value, k: Text, l: Text)
    ensures Body(Array([x, y]), -1) == Ascii("[") + Body(x, -1) + Ascii(",") + Body(y, -1) + Ascii("]")
    ensures Body(Object([Member(k, x), Member(l, y)]), -1)
         == Ascii("{") + StringText(k) + Ascii(":") + Body(x, -1) + Ascii(",") + StringText(l) + Ascii(":") + Body(y, -1) + Ascii("}")
  {
    hide StringText, Body;
    ArrayForm(x, y, -1);
    ObjectForm(Member(k, x), Member(l, y), -1);
    Punctuation();
    assert Indent(-1) == [];
  }

  /** The same on lines of their own, two spaces deeper; only a whole text ends
      with a line break. */
  lemma IndentedForms(x: Value, y: Value, k: Text, l: Text, n: nat)
    ensures var line, last := Ascii("\n") + Spaces(2 * n + 2), Ascii("\n") + Spaces(2 * n);
            && Body(Array([x, y]), n) == Ascii("[") + (line + Body(x, n + 1)) + Ascii(",") + (line + Body(y, n + 1)) + last + Ascii("]")
            && Body(Object([Member(k, x), Member(l, y)]), n)
            == Ascii("{") + (line + StringText(k) + Ascii(":") + Ascii(" ") + Body(x, n + 1)) + Ascii(",")
               + (line + StringText(l) + Ascii(":") + Ascii(" ") + Body(y, n + 1)) + last + Ascii("}")
    ensures Printed(x, -1) == Body(x, -1) && Printed(x, 0) == Body(x, 0) + Ascii("\n") && Printed(x, n + 1) == Body(x, n + 1)
  {
    hide StringText, Spaces, Body;
    ArrayForm(x, y, n);
    ObjectForm(Member(k, x), Member(l, y), n);
    Punctuation();
    assert Indent(n + 1) == [NEWLINE] + Spaces(2 * n + 2) && Indent(n) == [NEWLINE] + Spaces(2 * n);
  }

  lemma Punctuation()
    ensures Ascii("[") == [OPEN_ARRAY] && Ascii("]") == [CLOSE_ARRAY] && Ascii("{") == [OPEN_OBJECT] && Ascii("}") == [CLOSE_OBJECT]
    ensures Ascii(",") == [COMMA] && Ascii(":") == [COLON] && Ascii(" ") == [SPACE] && Ascii("\n") == [NEWLINE]
  {
  }

  lemma ArrayForm(x: Value, y: Value, indent: int)
    requires indent >= -1
    ensures var line := Indent(Deeper(indent));
            Body(Array([x, y]), indent) == [OPEN_ARRAY] + (line + Body(x, Deeper(indent))) + [COMMA] + (line + Body(y, Deeper(indent)))
                                           + Indent(indent) + [CLOSE_ARRAY]
  {
    hide Indent;
    var v := Array([x, y]);
    var first, second := ItemText(v, 0, indent), ItemText(v, 1, indent);
    assert Body(v, indent) == [OPEN_ARRAY] + ItemsText(v, 0, indent);
    hide Body;
    assert first == Indent(Deeper(indent)) + Body(x, Deeper(indent)) && second == Indent(Deeper(indent)) + Body(y, Deeper(indent));
    hide ItemText;
    TwoItems(v, indent);
  }

  lemma TwoItems(v: Value, indent: int)
    requires v.Array? && |v.items| == 2 && indent >= -1
    ensures ItemsText(v, 0, indent) == ItemText(v, 0, indent) + [COMMA] + ItemText(v, 1, indent) + Indent(indent) + [CLOSE_ARRAY]
  {
    hide ItemText, Indent;
    assert ItemsText(v, 2, indent) == Indent(indent) + [CLOSE_ARRAY];
    assert ItemsText(v, 1, indent) == [COMMA] + ItemText(v, 1, indent) + ItemsText(v, 2, indent);
  }

  lemma ObjectForm(x: Member, y: Member, indent: int)
    requires indent >= -1
    ensures var line, space := Indent(Deeper(indent)), if indent == -1 then [] else [SPACE];
            Body(Object([x, y]), indent) == [OPEN_OBJECT] + (line + StringText(x.key) + [COLON] + space + Body(x.value, Deeper(indent))) + [COMMA]
                                            + (line + StringText(y.key) + [COLON] + space + Body(y.value, Deeper(indent)))
                                            + Indent(indent) + [CLOSE_OBJECT]
  {
    hide Indent, StringText;
    var v := Object([x, y]);
    assert Body(v, indent) == [OPEN_OBJECT] + MembersText(v, 0, indent);
    OneMember(v, 0, indent);
    OneMember(v, 1, indent);
    hide Body, MemberText;
    TwoMembers(v, indent);
  }

  lemma OneMember(v: Value, k: nat, indent: int)
    requires v.Object? && k < |v.members| && indent >= -1
    ensures var m := v.members[k];
            MemberText(v, k, indent) == Indent(Deeper(indent)) + StringText(m.key) + [COLON] + (if indent == -1 then [] else [SPACE])
                                        + Body(m.value, Deeper(indent))
  {
    hide Indent, StringText, Body;
  }

  lemma TwoMembers(v: Value, indent: int)
    requires v.Object? && |v.members| == 2 && indent >= -1
    ensures MembersText(v, 0, indent) == MemberText(v, 0, indent) + [COMMA] + MemberText(v, 1, indent) + Indent(indent) + [CLOSE_OBJECT]
  {
    hide MemberText, Indent;
    assert MembersText(v, 2, indent) == Indent(indent) + [CLOSE_OBJECT];
    assert MembersText(v, 1, indent) == [COMMA] + MemberText(v, 1, indent) + MembersText(v, 2, indent);
  }

  /** The two-character escapes, printed and read. A control character without one
      is printed with four digits, and any other character as it is. */
  lemma Escapes(c: byte)
    ensures Escaped(0x22) == Ascii("\\\"") && Escaped(0x5C) == Ascii("\\\\") && Escaped(0x2F) == Ascii("\\/") && Escaped(0x08) == Ascii("\\b")
    ensures Escaped(0x0C) == Ascii("\\f") && Escaped(0x0A) == Ascii("\\n") && Escaped(0x0D) == Ascii("\\r") && Escaped(0x09) == Ascii("\\t")
    ensures Escaped(0x7F) == Ascii("\\u007f") && Escaped(0x1B) == Ascii("\\u001b")
    ensures 0x20 <= c && c !in {0x22, 0x2F, 0x5C, 0x7F} ==> Escaped(c) == [c]
    ensures c < 0x20 && c !in {0x08, 0x09, 0x0A, 0x0C, 0x0D} ==>
              var d := Escaped(c);
              && |d| == 6 && d[..4] == Ascii("\\u00")
              && HexValue(d[4]).Some? && HexValue(d[5]).Some? && 0x10 * HexValue(d[4]).value + HexValue(d[5]).value == c
  {
  }

  lemma Unescapes(c: byte)
    ensures Unescaped(0x22) == Some(0x22) && Unescaped(0x5C) == Some(0x5C) && Unescaped(0x2F) == Some(0x2F)
    ensures Unescaped(0x62) == Some(0x08) && Unescaped(0x66) == Some(0x0C) && Unescaped(0x6E) == Some(0x0A)
    ensures Unescaped(0x72) == Some(0x0D) && Unescaped(0x74) == Some(0x09)
    ensures Unescaped(c).Some? <==> c in Ascii("\"\\/bfnrt")
  {
    var all := [0x22, 0x5C, 0x2F, 0x62, 0x66, 0x6E, 0x72, 0x74];
    assert Ascii("\"\\/bfnrt") == all;
    assert all[0] == 0x22 && all[1] == 0x5C && all[2] == 0x2F && all[3] == 0x62 && all[4] == 0x66 && all[5] == 0x6E && all[6] == 0x72 && all[7] == 0x74;
  }

  lemma HexDigits(x: nat, c: byte)
    requires x < 16
    ensures var lower, upper := Ascii("0123456789abcdef"), Ascii("0123456789ABCDEF");
            && HexDigit(x) == lower[x] && HexValue(lower[x]) == HexValue(upper[x]) == Some(x)
            && (HexValue(c).Some? ==> c == lower[HexValue(c).value] || c == upper[HexValue(c).value])
  {
  }

  lemma Blanks(c: byte)
    ensures IsSpace(c) <==> c in Ascii(" \t\n\r")
  {
    assert Ascii(" \t\n\r") == [0x20, 0x09, 0x0A, 0x0D];
  }

  lemma NumberCharacters(c: byte)
    ensures InNumber(c) <==> c in Ascii("0123456789") || c in Ascii("+-eE.")
  {
    assert Ascii("+-eE.") == [0x2B, 0x2D, 0x65, 0x45, 0x2E];
    if IsDigit(c) {
      assert Ascii("0123456789")[c - 0x30] == c;
    }
  }

  // ---- the numbers that are read ------------------------------------------------

  /** An optional sign, digits, an optional fraction and an optional exponent, with
      a digit somewhere before the exponent. */
  predicate Written(s: Text, sign: Text, whole: Text, fraction: Text, exponent: Text) {
    && s == sign + whole + fraction + exponent && (sign == [] || sign == Ascii("-") || sign == Ascii("+"))
    && AllDigits(whole) && (fraction == [] || (fraction[0] == 0x2E && AllDigits(fraction[1..])))
    && (whole != [] || |fraction| > 1)
    && (exponent == [] || ((exponent[0] == 0x65 || exponent[0] == 0x45) && |exponent| > 1 && Integer(exponent[1..])))
  }

  /** Digits, at least one, behind an optional sign. */
  predicate Integer(s: Text)
    requires s != []
  {
    var d := if s[0] == 0x2D || s[0] == 0x2B then s[1..] else s;
    d != [] && AllDigits(d)
  }

  lemma {:induction false} DigitsTaken(s: Text) returns (d: Text)
    ensures s == d + SkipDigits(s) && AllDigits(d) && (SkipDigits(s) == [] || !IsDigit(SkipDigits(s)[0]))
  {
    d := [];
    if s != [] && IsDigit(s[0]) {
      d := DigitsTaken(s[1..]);
      d := [s[0]] + d;
    }
  }

  lemma {:induction false} SkipsDigits(d: Text, r: Text)
    requires AllDigits(d) && (r == [] || !IsDigit(r[0]))
    ensures SkipDigits(d + r) == r
  {
    if d == [] {
      assert d + r == r;
    } else {
      assert (d + r)[1..] == d[1..] + r;
      SkipsDigits(d[1..], r);
    }
  }

  /** What is read as a number that is not an exact integer. */
  lemma NumeralIs(s: Text)
    ensures Numeral(s) <==> exists sign, whole, fraction, exponent :: Written(s, sign, whole, fraction, exponent)
  {
    if Numeral(s) {
      Taken(s);
    }
    if sign, whole, fraction, exponent :| Written(s, sign, whole, fraction, exponent) {
      Given(s, sign, whole, fraction, exponent);
    }
  }

  lemma ExponentIs(s: Text)
    requires s != []
    ensures Exponent(s) <==> (s[0] == 0x65 || s[0] == 0x45) && |s| > 1 && Integer(s[1..])
  {
    AllSkipped(WithoutSign(s[1..]));
  }

  lemma AllSkipped(s: Text)
    ensures SkipDigits(s) == [] <==> AllDigits(s)
  {
    var d := DigitsTaken(s);
    if AllDigits(s) {
      SkipsDigits(s, []);
      assert s + [] == s;
    }
  }

  /** A fraction, if there is one, and what follows it. */
  lemma FractionTaken(u: Text) returns (fraction: Text, rest: Text)
    ensures rest == if u != [] && u[0] == 0x2E then SkipDigits(u[1..]) else u
    ensures u == fraction + rest && (fraction == [] || (fraction[0] == 0x2E && AllDigits(fraction[1..])))
    ensures fraction != [] <==> u != [] && u[0] == 0x2E
  {
    hide SkipDigits;
    fraction, rest := [], u;
    if u != [] && u[0] == 0x2E {
      var d := DigitsTaken(u[1..]);
      fraction, rest := [u[0]] + d, SkipDigits(u[1..]);
      assert fraction[1..] == d;
    }
  }

  lemma SignTaken(s: Text) returns (sign: Text)
    ensures s == sign + WithoutSign(s) && (sign == [] || sign == Ascii("-") || sign == Ascii("+"))
  {
    assert Ascii("-") == [0x2D] && Ascii("+") == [0x2B];
    sign := if s != [] && (s[0] == MINUS || s[0] == 0x2B) then [s[0]] else [];
  }

  lemma Taken(s: Text)
    requires Numeral(s)
    ensures exists sign, whole, fraction, exponent :: Written(s, sign, whole, fraction, exponent)
  {
    hide SkipDigits, Exponent, Integer, AllDigits, WithoutSign;
    var sign := SignTaken(s);
    var t := WithoutSign(s);
    var whole := DigitsTaken(t);
    var u := SkipDigits(t);
    var fraction, w := FractionTaken(u);
    if w != [] {
      ExponentIs(w);
    }
    Joined(s, sign, t, whole, u, fraction, w);
    assert Written(s, sign, whole, fraction, w);
  }

  lemma Joined(s: Text, sign: Text, t: Text, whole: Text, u: Text, fraction: Text, w: Text)
    requires s == sign + t && t == whole + u && u == fraction + w
    ensures s == sign + whole + fraction + w && |t| == |whole| + |u| && |u| == |fraction| + |w|
  {
  }

  lemma Unsigned(s: Text, sign: Text, t: Text)
    requires s == sign + t && (sign == [] || sign == Ascii("-") || sign == Ascii("+")) && t != [] && (IsDigit(t[0]) || t[0] == 0x2E)
    ensures WithoutSign(s) == t
  {
    assert Ascii("-") == [0x2D] && Ascii("+") == [0x2B];
  }

  lemma Given(s: Text, sign: Text, whole: Text, fraction: Text, exponent: Text)
    requires Written(s, sign, whole, fraction, exponent)
    ensures Numeral(s)
  {
    hide SkipDigits, Exponent, Integer;
    var u := fraction + exponent;
    var t := whole + u;
    assert s == sign + t;
    Unsigned(s, sign, t);
    hide WithoutSign;
    SkipsDigits(whole, u);
    if fraction != [] {
      assert u[1..] == fraction[1..] + exponent;
      SkipsDigits(fraction[1..], exponent);
    }
    if exponent != [] {
      ExponentIs(exponent);
    }
    assert WithoutSign(s) == t && SkipDigits(t) == u;
    assert fraction == [] ==> u == exponent;
    assert fraction != [] ==> u[0] == 0x2E && SkipDigits(u[1..]) == exponent;
  }
}
