/** JSON values, the texts they are printed as, and the texts that are read. */
module Json {
  import opened Bytes
  import opened Options
  import opened Utf8
  import opened Hexadecimal

  const QUOTE: byte := 0x22
  const BACKSLASH: byte := 0x5C
  const SLASH: byte := 0x2F
  const COMMA: byte := 0x2C
  const COLON: byte := 0x3A
  const MINUS: byte := 0x2D
  const SPACE: byte := 0x20
  const NEWLINE: byte := 0x0A
  const OPEN_ARRAY: byte := 0x5B
  const CLOSE_ARRAY: byte := 0x5D
  const OPEN_OBJECT: byte := 0x7B
  const CLOSE_OBJECT: byte := 0x7D
  const NULL: seq<byte> := [0x6E, 0x75, 0x6C, 0x6C]
  const TRUE: seq<byte> := [0x74, 0x72, 0x75, 0x65]
  const FALSE: seq<byte> := [0x66, 0x61, 0x6C, 0x73, 0x65]
  const EXACT := 0x20_0000_0000_0000 // 2^53: integers below it are exact doubles

  type Text = seq<byte>

  datatype Member = Member(key: Text, value: Value)

  /** A value. A number that is not an exact integer is known by its text only.
      The members of an object are sorted by key, as in a `std::map`. */
  datatype Value =
    | Null | Bool(b: bool) | Number(n: int) | Other(text: Text) | String(s: Text)
    | Array(items: seq<Value>) | Object(members: seq<Member>)

  /** The order of `std::string`. */
  predicate Less(a: Text, b: Text) {
    b != [] && (a == [] || a[0] < b[0] || (a[0] == b[0] && Less(a[1..], b[1..])))
  }

  predicate Sorted(members: seq<Member>) {
    forall i, j | 0 <= i < j < |members| :: Less(members[i].key, members[j].key)
  }

  /** A value made of null, booleans, exact integers, strings, arrays and objects. */
  predicate Plain(v: Value) {
    match v
    case Number(n) => -EXACT < n < EXACT
    case Other(_) => false
    case Array(items) => forall i | 0 <= i < |items| :: Plain(items[i])
    case Object(members) => Sorted(members) && forall i | 0 <= i < |members| :: Plain(members[i].value)
    case _ => true
  }

  // ---- printing ------------------------------------------------------------------

  function HexDigit(x: nat): byte
    requires x < 16
  {
    if x < 10 then 0x30 + x else 0x61 + x - 10
  }

  /** How a character is printed in a string. */
  function Escaped(c: byte): (d: Text)
    ensures d != []
  {
    if c == QUOTE || c == BACKSLASH || c == SLASH then [BACKSLASH, c]
    else if c == 0x08 then [BACKSLASH, 0x62]
    else if c == 0x0C then [BACKSLASH, 0x66]
    else if c == 0x0A then [BACKSLASH, 0x6E]
    else if c == 0x0D then [BACKSLASH, 0x72]
    else if c == 0x09 then [BACKSLASH, 0x74]
    else if c < 0x20 || c == 0x7F then [BACKSLASH, 0x75, 0x30, 0x30, HexDigit(c / 16), HexDigit(c % 16)]
    else [c]
  }

  function AllEscaped(s: Text): Text {
    if s == [] then [] else Escaped(s[0]) + AllEscaped(s[1..])
  }

  function StringText(s: Text): Text {
    [QUOTE] + AllEscaped(s) + [QUOTE]
  }

  function Digits(n: nat): (d: Text)
    ensures d != []
  {
    if n < 10 then [0x30 + n] else Digits(n / 10) + [0x30 + n % 10]
  }

  function NumberText(n: int): Text {
    if n < 0 then [MINUS] + Digits(-n) else Digits(n)
  }

  function Spaces(n: nat): Text {
    seq(n, _ => SPACE)
  }

  /** A new line, indented; nothing if the text is to be compact. */
  function Indent(indent: int): Text {
    if indent < 0 then [] else [NEWLINE] + Spaces(2 * indent)
  }

  function Deeper(indent: int): int {
    if indent == -1 then -1 else indent + 1
  }

  /** The text of a value, compact for -1 or indented by so many levels. */
  function Printed(v: Value, indent: int): Text
    requires indent >= -1
  {
    Body(v, indent) + if indent == 0 then [NEWLINE] else []
  }

  function Body(v: Value, indent: int): Text
    requires indent >= -1
    decreases v, 1, 0
  {
    match v
    case Null => NULL
    case Bool(b) => if b then TRUE else FALSE
    case Number(n) => NumberText(n)
    case Other(text) => text
    case String(s) => StringText(s)
    case Array(items) => [OPEN_ARRAY] + ItemsText(v, 0, indent)
    case Object(members) => [OPEN_OBJECT] + MembersText(v, 0, indent)
  }

  /** The items from the `k`-th on, and the end of the array. */
  function ItemsText(v: Value, k: nat, indent: int): Text
    requires v.Array? && k <= |v.items| && indent >= -1
    decreases v, 0, |v.items| - k
  {
    if k == |v.items| then (if k > 0 then Indent(indent) else []) + [CLOSE_ARRAY]
    else (if k > 0 then [COMMA] else []) + ItemText(v, k, indent) + ItemsText(v, k + 1, indent)
  }

  function ItemText(v: Value, k: nat, indent: int): Text
    requires v.Array? && k < |v.items| && indent >= -1
    decreases v, 0, 0
  {
    Indent(Deeper(indent)) + Body(v.items[k], Deeper(indent))
  }

  /** The members from the `k`-th on, and the end of the object. */
  function MembersText(v: Value, k: nat, indent: int): Text
    requires v.Object? && k <= |v.members| && indent >= -1
    decreases v, 0, |v.members| - k
  {
    if k == |v.members| then (if k > 0 then Indent(indent) else []) + [CLOSE_OBJECT]
    else (if k > 0 then [COMMA] else []) + MemberText(v, k, indent) + MembersText(v, k + 1, indent)
  }

  function MemberText(v: Value, k: nat, indent: int): Text
    requires v.Object? && k < |v.members| && indent >= -1
    decreases v, 0, 0
  {
    var m := v.members[k];
    Indent(Deeper(indent)) + StringText(m.key) + [COLON] + (if indent != -1 then [SPACE] else []) + Body(m.value, Deeper(indent))
  }

  // ---- reading ---------------------------------------------------------------------

  /** What reading gave, and the text after it. */
  datatype Parsed<+T> = Failed | Read(value: T, rest: Text)

  predicate IsSpace(c: byte) {
    c == 0x20 || c == 0x09 || c == 0x0A || c == 0x0D
  }

  function SkipSpace(s: Text): (r: Text)
    ensures |r| <= |s| && (r == [] || !IsSpace(r[0]))
  {
    if s != [] && IsSpace(s[0]) then SkipSpace(s[1..]) else s
  }

  /** Is `c` next, after white space? Then it is taken. */
  function Expected(s: Text, c: byte): (r: (bool, Text))
    ensures |r.1| <= |s| && (r.0 ==> |r.1| < |s|)
  {
    var t := SkipSpace(s);
    if t != [] && t[0] == c then (true, t[1..]) else (false, t)
  }

  /** `n` hexadecimal digits. */
  function Hex(s: Text, n: nat, before: nat): (r: Parsed<nat>)
    ensures r.Read? ==> |r.rest| + n == |s|
    decreases n
  {
    if n == 0 then Read(before, s)
    else if s == [] || HexValue(s[0]).None? then Failed
    else Hex(s[1..], n - 1, before * 16 + HexValue(s[0]).value)
  }

  lemma HexStep(s: Text, n: nat, before: nat)
    requires n > 0 && s != []
    ensures Hex(s, n, before) == if HexValue(s[0]).None? then Failed else Hex(s[1..], n - 1, before * 16 + HexValue(s[0]).value)
    ensures n == 1 && HexValue(s[0]).Some? ==> Hex(s, n, before) == Read(before * 16 + HexValue(s[0]).value, s[1..])
  {
  }

  lemma {:induction false} HexShort(s: Text, n: nat, before: nat)
    requires |s| < n
    ensures Hex(s, n, before).Failed?
  {
    if s != [] && HexValue(s[0]).Some? {
      HexShort(s[1..], n - 1, before * 16 + HexValue(s[0]).value);
    }
  }

  lemma HexNone(s: Text, before: nat)
    ensures Hex(s, 0, before) == Read(before, s)
  {
  }

  lemma {:induction false} HexBound(s: Text, n: nat, before: nat, bound: nat)
    requires Hex(s, n, before).Read? && before < bound && n <= 4
    ensures Hex(s, n, before).value
          < bound * if n == 0 then 1 else if n == 1 then 0x10 else if n == 2 then 0x100 else if n == 3 then 0x1000 else 0x1_0000
  {
    if n > 0 {
      HexBound(s[1..], n - 1, before * 16 + HexValue(s[0]).value, bound * 16);
    }
  }

  /** What follows `\u`: the UTF-8 of the code point. */
  function CodePoint(s: Text): (r: Parsed<Text>)
    ensures r.Read? ==> |r.rest| < |s|
  {
    var first := Hex(s, 4, 0);
    if first.Failed? then Failed
    else if !(0xD800 <= first.value <= 0xDFFF) then
      HexBound(s, 4, 0, 1);
      Read(Encode(first.value), first.rest)
    else if 0xDC00 <= first.value then Failed
    else if !(|first.rest| >= 2 && first.rest[0] == BACKSLASH && first.rest[1] == 0x75) then Failed
    else
      var second := Hex(first.rest[2..], 4, 0);
      if second.Failed? || !(0xDC00 <= second.value <= 0xDFFF) then Failed
      else Read(Encode(Pair(first.value, second.value)), second.rest)
  }

  /** The code point of a surrogate pair. */
  function Pair(high: nat, low: nat): (u: nat)
    requires 0xD800 <= high < 0xDC00 && 0xDC00 <= low <= 0xDFFF
    ensures 0x1_0000 <= u < 0x11_0000
  {
    0x1_0000 + (high - 0xD800) * 0x400 + (low - 0xDC00)
  }

  /** The character that a letter after a backslash stands for. */
  function Unescaped(c: byte): Option<byte> {
    if c == QUOTE || c == BACKSLASH || c == SLASH then Some(c)
    else if c == 0x62 then Some(0x08)
    else if c == 0x66 then Some(0x0C)
    else if c == 0x6E then Some(0x0A)
    else if c == 0x72 then Some(0x0D)
    else if c == 0x74 then Some(0x09)
    else None
  }

  /** The rest of a string of which `before` has been read. */
  function StringFrom(s: Text, before: Text): (r: Parsed<Text>)
    ensures r.Read? ==> |r.rest| < |s|
    decreases |s|
  {
    if s == [] || s[0] < 0x20 then Failed
    else if s[0] == QUOTE then Read(before, s[1..])
    else if s[0] != BACKSLASH then StringFrom(s[1..], before + [s[0]])
    else if |s| == 1 then Failed
    else if s[1] == 0x75 then
      var u := CodePoint(s[2..]);
      if u.Failed? then Failed else StringFrom(u.rest, before + u.value)
    else if Unescaped(s[1]).None? then Failed
    else StringFrom(s[2..], before + [Unescaped(s[1]).value])
  }

  predicate IsDigit(c: byte) {
    0x30 <= c <= 0x39
  }

  /** The characters that are collected for a number. */
  predicate InNumber(c: byte) {
    IsDigit(c) || c == 0x2B || c == MINUS || c == 0x65 || c == 0x45 || c == 0x2E
  }

  function NumberFrom(s: Text, before: Text): (r: (Text, Text))
    ensures |r.1| <= |s|
  {
    if s != [] && InNumber(s[0]) then NumberFrom(s[1..], before + [s[0]]) else (before, s)
  }

  function AllDigits(s: Text): bool {
    forall i | 0 <= i < |s| :: IsDigit(s[i])
  }

  function Decimal(s: Text): nat
    requires AllDigits(s)
  {
    if s == [] then 0 else Decimal(s[..|s| - 1]) * 10 + (s[|s| - 1] - 0x30)
  }

  function SkipDigits(s: Text): (r: Text)
    ensures |r| <= |s|
  {
    if s != [] && IsDigit(s[0]) then SkipDigits(s[1..]) else s
  }

  /** Does `strtod` read all of this text? A sign, digits, a fraction and an
      exponent, where digits may be missing on one side of the point. */
  predicate Numeral(s: Text) {
    var t := WithoutSign(s);
    var u := SkipDigits(t);
    var w := if u != [] && u[0] == 0x2E then SkipDigits(u[1..]) else u;
    && |u| - |w| + |t| - |u| > (if u != [] && u[0] == 0x2E then 1 else 0)
    && (w == [] || Exponent(w))
  }

  predicate Exponent(s: Text)
    requires s != []
  {
    (s[0] == 0x65 || s[0] == 0x45) && var x := WithoutSign(s[1..]); x != [] && SkipDigits(x) == []
  }

  function WithoutSign(s: Text): Text {
    if s != [] && (s[0] == MINUS || s[0] == 0x2B) then s[1..] else s
  }

  /** The value of a number's text. */
  function NumberOf(s: Text): Option<Value> {
    var negative := s != [] && s[0] == MINUS;
    var d := if negative then s[1..] else s;
    if d != [] && AllDigits(d) && Decimal(d) < EXACT then
      var n: int := Decimal(d);
      Some(Number(if negative then -n else n))
    else if Numeral(s) then Some(Other(s))
    else None
  }

  /** `o[key] = value`: in its place, or over what was there. */
  function Insert(members: seq<Member>, m: Member): seq<Member> {
    if members == [] || Less(m.key, members[0].key) then [m] + members
    else if members[0].key == m.key then [m] + members[1..]
    else [members[0]] + Insert(members[1..], m)
  }

  predicate StartsWith(s: Text, p: Text) {
    |p| <= |s| && s[..|p|] == p
  }

  /** One value. */
  function ValueFrom(s: Text): (r: Parsed<Value>)
    ensures r.Read? ==> |r.rest| < |s|
    decreases |s|, 0
  {
    var t := SkipSpace(s);
    if t == [] then Failed
    else if StartsWith(t, NULL) then Read(Null, t[4..])
    else if StartsWith(t, FALSE) then Read(Bool(false), t[5..])
    else if StartsWith(t, TRUE) then Read(Bool(true), t[4..])
    else if t[0] == QUOTE then
      var text := StringFrom(t[1..], []);
      if text.Failed? then Failed else Read(String(text.value), text.rest)
    else if t[0] == OPEN_ARRAY then
      var (empty, u) := Expected(t[1..], CLOSE_ARRAY);
      if empty then Read(Array([]), u) else ItemsFrom(u, [])
    else if t[0] == OPEN_OBJECT then
      var (empty, u) := Expected(t[1..], CLOSE_OBJECT);
      if empty then Read(Object([]), u) else MembersFrom(u, [])
    else if IsDigit(t[0]) || t[0] == MINUS then
      var (text, u) := NumberFrom(t[1..], [t[0]]);
      var number := NumberOf(text);
      if number.None? then Failed else Read(number.value, u)
    else Failed
  }

  /** The rest of an array whose first items are `before`. */
  function ItemsFrom(s: Text, before: seq<Value>): (r: Parsed<Value>)
    ensures r.Read? ==> |r.rest| < |s|
    decreases |s|, 1
  {
    var item := ValueFrom(s);
    if item.Failed? then Failed
    else
      var items := before + [item.value];
      var (more, t) := Expected(item.rest, COMMA);
      if more then ItemsFrom(t, items)
      else
        var (end, u) := Expected(t, CLOSE_ARRAY);
        if end then Read(Array(items), u) else Failed
  }

  /** The rest of an object whose members so far are `before`. */
  function MembersFrom(s: Text, before: seq<Member>): (r: Parsed<Value>)
    ensures r.Read? ==> |r.rest| < |s|
    decreases |s|, 1
  {
    var key := KeyFrom(s);
    if key.Failed? then Failed
    else
      var value := ValueFrom(key.rest);
      if value.Failed? then Failed
      else
        var members := Insert(before, Member(key.value, value.value));
        var (more, t) := Expected(value.rest, COMMA);
        if more then MembersFrom(t, members)
        else
          var (end, u) := Expected(t, CLOSE_OBJECT);
          if end then Read(Object(members), u) else Failed
  }

  /** A key and its colon. */
  function KeyFrom(s: Text): (r: Parsed<Text>)
    ensures r.Read? ==> |r.rest| < |s|
  {
    var (quoted, t) := Expected(s, QUOTE);
    if !quoted then Failed
    else
      var key := StringFrom(t, []);
      if key.Failed? then Failed
      else
        var (colon, u) := Expected(key.rest, COLON);
        if colon then Read(key.value, u) else Failed
  }
}
