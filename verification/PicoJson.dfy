/** The parser and the printer: a cursor that moves over the text with one
    character of push-back, and loops that build the values. */
module PicoJson {
  import opened Bytes
  import opened Options
  import opened Utf8
  import opened Json
  import opened JsonObjects
  import opened JsonGrammar
  import JsonRoundTrip

  lemma StartsNothing(s: Text, p: Text)
    ensures StartsWith(s, p[..0]) && (StartsWith(s, p) ==> |p| <= |s|)
  {
  }

  /** A pattern matched up to `i` is matched further exactly by its next character. */
  lemma StartsMore(s: Text, p: Text, i: nat)
    requires i < |p| && i <= |s| && StartsWith(s, p[..i])
    ensures StartsWith(s, p[..i + 1]) <==> i < |s| && s[i] == p[i]
    ensures StartsWith(s, p) ==> i < |s| && s[i] == p[i]
  {
    if i < |s| {
      assert s[..i + 1] == s[..i] + [s[i]] && p[..i + 1] == p[..i] + [p[i]];
    }
    if StartsWith(s, p) {
      assert s[..|p|][i] == p[i];
    }
  }

  class Input {
    const data: Text
    var cur: nat
    var consumed: bool // has the character at `cur` been handed out?

    ghost predicate Valid()
      reads this
    {
      cur <= |data| && (consumed ==> cur < |data|)
    }

    /** What is still to come. */
    ghost function Rest(): Text
      requires Valid()
      reads this
    {
      data[if consumed then cur + 1 else cur..]
    }

    constructor (data: Text)
      ensures Valid() && Rest() == data && this.data == data
    {
      this.data := data;
      cur, consumed := 0, false;
    }

    /** The next character, or -1 at the end. It can be put back. */
    method Getc() returns (ch: int)
      requires Valid()
      modifies this
      ensures Valid() && data[cur..] == old(Rest())
      ensures ch == if old(Rest()) == [] then -1 else old(Rest()[0])
      ensures Rest() == if old(Rest()) == [] then [] else old(Rest())[1..]
    {
      if consumed {
        cur := cur + 1;
      }
      if cur == |data| {
        consumed := false;
        return -1;
      }
      consumed := true;
      return data[cur];
    }

    /** Puts the last character back. */
    method Ungetc()
      requires Valid()
      modifies this
      ensures Valid() && Rest() == old(data[cur..])
    {
      consumed := false;
    }

    /** Where reading has come to. */
    method Cur() returns (at: nat)
      requires Valid()
      modifies this
      ensures Valid() && at <= |data| && data[at..] == old(Rest()) == Rest()
    {
      if consumed {
        consumed := false;
        cur := cur + 1;
      }
      at := cur;
    }

    method SkipWs()
      requires Valid()
      modifies this
      ensures Valid() && Rest() == SkipSpace(old(Rest()))
    {
      var done := false;
      while !done
        invariant Valid() && SkipSpace(Rest()) == SkipSpace(old(Rest()))
        invariant done ==> Rest() == SkipSpace(Rest())
        decreases !done, |Rest()|
      {
        var ch := Getc();
        if !(ch == 0x20 || ch == 0x09 || ch == 0x0A || ch == 0x0D) {
          Ungetc();
          done := true;
        }
      }
    }

    method Expect(c: byte) returns (ok: bool)
      requires Valid()
      modifies this
      ensures Valid() && (ok, Rest()) == Expected(old(Rest()), c)
    {
      SkipWs();
      var ch := Getc();
      if ch != c {
        Ungetc();
        return false;
      }
      return true;
    }

    method Match(pattern: Text) returns (ok: bool)
      requires Valid()
      modifies this
      ensures Valid() && (ok <==> StartsWith(old(Rest()), pattern))
      ensures ok ==> Rest() == old(Rest())[|pattern|..]
    {
      hide StartsWith;
      StartsNothing(Rest(), pattern);
      for i := 0 to |pattern|
        invariant Valid() && i <= |old(Rest())| && StartsWith(old(Rest()), pattern[..i]) && Rest() == old(Rest())[i..]
      {
        ghost var s := old(Rest());
        assert s[i..] != [] ==> s[i..][0] == s[i] && s[i..][1..] == s[i + 1..];
        StartsMore(s, pattern, i);
        var ch := Getc();
        if ch != pattern[i] {
          Ungetc();
          return false;
        }
      }
      assert pattern[..|pattern|] == pattern;
      return true;
    }

    /** Four hexadecimal digits, or -1. */
    method ParseQuadhex() returns (uniCh: int)
      requires Valid()
      modifies this
      ensures Valid() && (uniCh == -1 <==> Hex(old(Rest()), 4, 0).Failed?)
      ensures uniCh != -1 ==> Read(uniCh, Rest()) == Hex(old(Rest()), 4, 0)
    {
      hide Hex;
      uniCh := 0;
      for i := 0 to 4
        invariant Valid() && uniCh >= 0 && Hex(Rest(), 4 - i, uniCh) == Hex(old(Rest()), 4, 0)
      {
        ghost var s, before := Rest(), uniCh;
        if s != [] {
          HexStep(s, 4 - i, uniCh);
        } else {
          HexShort(s, 4 - i, uniCh);
        }
        var hex := Getc();
        if hex == -1 {
          return -1;
        }
        if 0x30 <= hex <= 0x39 {
          hex := hex - 0x30;
        } else if 0x41 <= hex <= 0x46 {
          hex := hex - (0x41 - 0xA);
        } else if 0x61 <= hex <= 0x66 {
          hex := hex - (0x61 - 0xA);
        } else {
          Ungetc();
          return -1;
        }
        uniCh := uniCh * 16 + hex;
      }
      HexNone(Rest(), uniCh);
    }

    /** The UTF-8 of the code point that follows `\u`. */
    method ParseCodepoint() returns (ok: bool, out: Text)
      requires Valid()
      modifies this
      ensures Valid() && (ok <==> CodePoint(old(Rest())).Read?)
      ensures ok ==> Read(out, Rest()) == CodePoint(old(Rest()))
    {
      hide Hex, Encode, StartsWith;
      ghost var s := Rest();
      out := [];
      var uniCh := ParseQuadhex();
      if uniCh == -1 {
        return false, out;
      }
      HexBound(s, 4, 0, 1);
      if 0xD800 <= uniCh <= 0xDFFF {
        if 0xDC00 <= uniCh {
          return false, out;
        }
        ghost var t := Rest();
        ok := Match([BACKSLASH, 0x75]);
        PairStarts(t);
        if !ok {
          return false, out;
        }
        var second := ParseQuadhex();
        if !(0xDC00 <= second <= 0xDFFF) {
          return false, out;
        }
        uniCh := (uniCh - 0xD800) * 0x400 + (second - 0xDC00) % 0x400;
        uniCh := uniCh + 0x1_0000;
      }
      out := Push(uniCh);
      return true, out;
    }

    /** Appends the bytes of a code point one by one. */
    method Push(uniCh: nat) returns (out: Text)
      requires uniCh < 0x11_0000
      ensures out == Encode(uniCh)
    {
      out := [];
      if uniCh < 0x80 {
        out := out + [uniCh];
      } else {
        if uniCh < 0x800 {
          out := out + [0xC0 + uniCh / 0x40];
        } else {
          if uniCh < 0x1_0000 {
            out := out + [0xE0 + uniCh / 0x1000];
          } else {
            out := out + [0xF0 + uniCh / 0x4_0000];
            out := out + [0x80 + uniCh / 0x1000 % 0x40];
          }
          out := out + [0x80 + uniCh / 0x40 % 0x40];
        }
        out := out + [0x80 + uniCh % 0x40];
      }
    }

    method ParseString() returns (ok: bool, out: Text)
      requires Valid()
      modifies this
      ensures Valid() && (ok <==> StringFrom(old(Rest()), []).Read?)
      ensures ok ==> Read(out, Rest()) == StringFrom(old(Rest()), [])
    {
      hide CodePoint;
      out := [];
      while true
        invariant Valid() && StringFrom(Rest(), out) == StringFrom(old(Rest()), [])
        decreases |Rest()|
      {
        ghost var s := Rest();
        var ch := Getc();
        if ch < 0x20 {
          Ungetc();
          return false, out;
        } else if ch == QUOTE {
          return true, out;
        } else if ch == BACKSLASH {
          ch := Getc();
          if ch == -1 {
            return false, out;
          }
          assert s[1..][0] == s[1] && s[1..][1..] == s[2..];
          if ch == 0x75 {
            var some;
            ok, some := ParseCodepoint();
            if !ok {
              return false, out;
            }
            out := out + some;
          } else if Unescaped(ch).Some? {
            out := out + [Unescaped(ch).value];
          } else {
            return false, out;
          }
        } else {
          out := out + [ch];
        }
      }
    }
  
    /** Collects the characters of a number. */
    method ParseNumber() returns (numStr: Text)
      requires Valid()
      modifies this
      ensures Valid() && (numStr, Rest()) == NumberFrom(old(Rest()), [])
    {
      numStr := [];
      var done := false;
      while !done
        invariant Valid()
        invariant !done ==> NumberFrom(Rest(), numStr) == NumberFrom(old(Rest()), [])
        invariant done ==> (numStr, Rest()) == NumberFrom(old(Rest()), [])
        decreases !done, |Rest()|
      {
        var ch := Getc();
        if ch >= 0 && InNumber(ch) {
          numStr := numStr + [ch];
        } else {
          Ungetc();
          done := true;
        }
      }
    }

    /** The rest of an array, after its bracket. */
    method ParseArray() returns (ok: bool, v: Value)
      requires Valid()
      modifies this
      ensures Valid()
      ensures var (empty, u) := Expected(old(Rest()), CLOSE_ARRAY);
              var r := if empty then Read(Array([]), u) else ItemsFrom(u, []);
              (ok <==> r.Read?) && (ok ==> Read(v, Rest()) == r)
      decreases |Rest()|, 1
    {
      hide Expected, ValueFrom;
      var items: seq<Value> := [];
      v := Array(items);
      var empty := Expect(CLOSE_ARRAY);
      if empty {
        return true, v;
      }
      ghost var start := Rest();
      var more := true;
      while more
        invariant Valid() && |Rest()| <= |start|
        invariant more ==> ItemsFrom(Rest(), items) == ItemsFrom(start, [])
        invariant !more ==>
          var (end, u) := Expected(Rest(), CLOSE_ARRAY); ItemsFrom(start, []) == if end then Read(Array(items), u) else Failed
        decreases more, |Rest()|
      {
        var item;
        ok, item := Parse();
        if !ok {
          return false, v;
        }
        items := items + [item];
        more := Expect(COMMA);
      }
      ok := Expect(CLOSE_ARRAY);
      v := Array(items);
    }

    /** The rest of an object, after its brace: its members in the order of their
        keys, each key with the value that the text gives it last. */
    method ParseObject() returns (ok: bool, v: Value)
      requires Valid()
      modifies this
      ensures Valid()
      ensures var (empty, u) := Expected(old(Rest()), CLOSE_OBJECT);
              var r := if empty then Read(Object([]), u) else MembersFrom(u, []);
              (ok <==> r.Read?) && (ok ==> Read(v, Rest()) == r)
      ensures ok ==>
                var (empty, u) := Expected(old(Rest()), CLOSE_OBJECT);
                && (empty || ListedFrom(u).Read?) && v.Object? && Sorted(v.members)
                && forall x :: x in v.members <==> !empty && Last(ListedFrom(u).value, x)
      decreases |Rest()|, 1
    {
      hide Expected, ValueFrom, KeyFrom, Insert, ListedFrom, Last;
      var members: seq<Member> := [];
      v := Object(members);
      var empty := Expect(CLOSE_OBJECT);
      if empty {
        return true, v;
      }
      ghost var start := Rest();
      MembersAre(start, []);
      var more := true;
      while more
        invariant Valid() && |Rest()| <= |start|
        invariant more ==> MembersFrom(Rest(), members) == MembersFrom(start, [])
        invariant !more ==>
          var (end, u) := Expected(Rest(), CLOSE_OBJECT); MembersFrom(start, []) == if end then Read(Object(members), u) else Failed
        decreases more, |Rest()|
      {
        var key, value;
        ok, key := ParseKey();
        if !ok {
          return false, v;
        }
        ok, value := Parse();
        if !ok {
          return false, v;
        }
        members := Insert(members, Member(key, value));
        more := Expect(COMMA);
      }
      ok := Expect(CLOSE_OBJECT);
      v := Object(members);
    }

    method ParseKey() returns (ok: bool, key: Text)
      requires Valid()
      modifies this
      ensures Valid() && (ok <==> KeyFrom(old(Rest())).Read?)
      ensures ok ==> Read(key, Rest()) == KeyFrom(old(Rest()))
    {
      hide Expected, StringFrom;
      key := [];
      ok := Expect(QUOTE);
      if ok {
        ok, key := ParseString();
        if ok {
          ok := Expect(COLON);
        }
      }
    }

    /** One value. */
    method Parse() returns (ok: bool, v: Value)
      requires Valid()
      modifies this
      ensures Valid() && (ok <==> ValueFrom(old(Rest())).Read?)
      ensures ok ==> Read(v, Rest()) == ValueFrom(old(Rest())) && Tidy(v)
      decreases |Rest()|, 0
    {
      hide Expected, StringFrom, ItemsFrom, MembersFrom, NumberOf, Tidy, ListedFrom, Last, Sorted;
      ValueTidy(Rest());
      v := Null;
      SkipWs();
      ghost var s := Rest();
      var ch := Getc();
      if s != [] {
        WordsStart(s);
      }
      if ch == 0x6E {
        ok := Match(NULL[1..]);
      } else if ch == 0x66 {
        ok := Match(FALSE[1..]);
        v := Bool(false);
      } else if ch == 0x74 {
        ok := Match(TRUE[1..]);
        v := Bool(true);
      } else if ch == QUOTE {
        var out;
        ok, out := ParseString();
        v := String(out);
      } else if ch == OPEN_ARRAY {
        ok, v := ParseArray();
      } else if ch == OPEN_OBJECT {
        ok, v := ParseObject();
      } else if 0x30 <= ch <= 0x39 || ch == MINUS {
        Ungetc();
        NumberStarts(s);
        var numStr := ParseNumber();
        var number := NumberOf(numStr);
        ok := number.Some?;
        if ok {
          v := number.value;
        }
      } else {
        Ungetc();
        ok := false;
      }
    }
  }

  lemma PairStarts(s: Text)
    ensures StartsWith(s, [BACKSLASH, 0x75]) <==> |s| >= 2 && s[0] == BACKSLASH && s[1] == 0x75
  {
  }

  lemma WordsStart(s: Text)
    requires s != []
    ensures StartsWith(s, NULL) <==> s[0] == 0x6E && StartsWith(s[1..], NULL[1..])
    ensures StartsWith(s, FALSE) <==> s[0] == 0x66 && StartsWith(s[1..], FALSE[1..])
    ensures StartsWith(s, TRUE) <==> s[0] == 0x74 && StartsWith(s[1..], TRUE[1..])
    ensures |s| >= 4 ==> s[1..][3..] == s[4..]
    ensures |s| >= 5 ==> s[1..][4..] == s[5..]
  {
    WordStarts(s, NULL);
    WordStarts(s, FALSE);
    WordStarts(s, TRUE);
  }

  lemma WordStarts(s: Text, p: Text)
    requires s != [] && p != []
    ensures StartsWith(s, p) <==> s[0] == p[0] && StartsWith(s[1..], p[1..])
  {
    if s[0] == p[0] && StartsWith(s[1..], p[1..]) {
      assert s[..|p|] == [s[0]] + s[1..][..|p| - 1] == [p[0]] + p[1..];
    }
    if StartsWith(s, p) {
      assert s[0] == s[..|p|][0] && s[1..][..|p| - 1] == s[..|p|][1..];
    }
  }

  lemma NumberStarts(s: Text)
    requires s != [] && InNumber(s[0])
    ensures NumberFrom(s, []) == NumberFrom(s[1..], [s[0]])
  {
    assert [] + [s[0]] == [s[0]];
  }

  /** `parse`: the value of a text, if it begins with one by the grammar, and where
      it ends. */
  method ParseText(s: Text) returns (ok: bool, v: Value, end: nat)
    ensures end <= |s| && (ok <==> ValueFrom(s).Read?)
    ensures ok <==> exists w, rest, ws, t :: Writes(s, w, rest, ws, t)
    ensures ok ==> Read(v, s[end..]) == ValueFrom(s) && Tidy(v) && exists ws, t :: Writes(s, v, s[end..], ws, t)
  {
    hide ValueFrom, Writes, Tidy;
    ReadSometimes(s);
    var input := new Input(s);
    ok, v := input.Parse();
    end := input.Cur();
    ReadExactly(s, v, s[end..]);
  }

  lemma ReadSometimes(s: Text)
    ensures ValueFrom(s).Read? <==> exists w, rest, ws, t :: Writes(s, w, rest, ws, t)
  {
    hide ValueFrom, Writes;
    if ValueFrom(s).Read? {
      ReadExactly(s, ValueFrom(s).value, ValueFrom(s).rest);
    }
    if w, rest, ws, t :| Writes(s, w, rest, ws, t) {
      ReadExactly(s, w, rest);
    }
  }

  // ---- printing --------------------------------------------------------------------------

  /** `serialize_str`. */
  method SerializeStr(s: Text) returns (out: Text)
    ensures out == StringText(s)
  {
    hide Escaped;
    out := [QUOTE];
    for i := 0 to |s|
      invariant out + AllEscaped(s[i..]) == [QUOTE] + AllEscaped(s)
    {
      assert s[i..][0] == s[i] && s[i..][1..] == s[i + 1..];
      out := out + Escaped(s[i]);
    }
    assert s[|s|..] == [];
    out := out + [QUOTE];
  }

  /** `_serialize`: -1 for a compact text. */
  method Serialize(v: Value, indent: int) returns (out: Text)
    requires indent >= -1
    ensures out == Printed(v, indent)
    decreases v, 1
  {
    match v {
      case String(s) => out := SerializeStr(s);
      case Array(_) => out := SerializeArray(v, indent);
      case Object(_) => out := SerializeObject(v, indent);
      case Null => out := NULL;
      case Bool(b) => out := if b then TRUE else FALSE;
      case Number(n) => out := NumberText(n);
      case Other(text) => out := text;
    }
    if indent == 0 {
      out := out + [NEWLINE];
    }
  }

  method SerializeArray(v: Value, indent: int) returns (out: Text)
    requires v.Array? && indent >= -1
    ensures out == Body(v, indent)
    decreases v, 0
  {
    hide Indent, ItemsText, ItemText;
    out := [OPEN_ARRAY];
    for i := 0 to |v.items|
      invariant out + ItemsText(v, i, indent) == Body(v, indent)
    {
      NextItem(v, i, indent);
      ghost var before := out;
      if i != 0 {
        out := out + [COMMA];
      }
      out := out + Indent(Deeper(indent));
      var item := Serialize(v.items[i], Deeper(indent));
      out := out + item;
      assert out == before + ((if i > 0 then [COMMA] else []) + ItemText(v, i, indent));
    }
    if indent != -1 && v.items != [] {
      out := out + Indent(indent);
    }
    NoIndent();
    LastItem(v, indent);
    out := out + [CLOSE_ARRAY];
  }

  lemma NextItem(v: Value, i: nat, indent: int)
    requires v.Array? && i < |v.items| && indent >= -1
    ensures ItemsText(v, i, indent) == ((if i > 0 then [COMMA] else []) + ItemText(v, i, indent)) + ItemsText(v, i + 1, indent)
    ensures ItemText(v, i, indent) == Indent(Deeper(indent)) + Body(v.items[i], Deeper(indent))
  {
    hide Indent, Body;
  }

  lemma LastItem(v: Value, indent: int)
    requires v.Array? && indent >= -1
    ensures ItemsText(v, |v.items|, indent) == (if |v.items| > 0 then Indent(indent) else []) + [CLOSE_ARRAY]
  {
    hide Indent;
  }

  method SerializeMember(v: Value, i: nat, indent: int) returns (out: Text)
    requires v.Object? && i < |v.members| && indent >= -1
    ensures out == MemberText(v, i, indent)
    decreases v, 0, 0
  {
    hide Indent, StringText, Body;
    out := Indent(Deeper(indent));
    var key := SerializeStr(v.members[i].key);
    out := out + key;
    out := out + [COLON];
    if indent != -1 {
      out := out + [SPACE];
    }
    NotTop(v.members[i].value, Deeper(indent));
    var value := Serialize(v.members[i].value, Deeper(indent));
    out := out + value;
  }

  lemma NotTop(v: Value, indent: int)
    requires indent >= -1 && indent != 0
    ensures Printed(v, indent) == Body(v, indent)
  {
    hide Body;
  }

  method SerializeObject(v: Value, indent: int) returns (out: Text)
    requires v.Object? && indent >= -1
    ensures out == Body(v, indent)
    decreases v, 0, 1
  {
    hide Indent, MemberText;
    out := [OPEN_OBJECT];
    for i := 0 to |v.members|
      invariant out + MembersText(v, i, indent) == Body(v, indent)
    {
      ghost var before := out;
      if i != 0 {
        out := out + [COMMA];
      }
      var member := SerializeMember(v, i, indent);
      out := out + member;
      assert out == before + ((if i > 0 then [COMMA] else []) + member);
    }
    if indent != -1 && v.members != [] {
      out := out + Indent(indent);
    }
    NoIndent();
    out := out + [CLOSE_OBJECT];
  }

  lemma NoIndent()
    ensures Indent(-1) == []
  {
  }

  /** Printing and reading a plain value, from end to end. */
  method PrintAndRead(v: Value, prettify: bool) returns (ok: bool, w: Value, left: Text)
    requires Plain(v)
    ensures ok && w == v && left == if prettify then [NEWLINE] else []
  {
    var text := Serialize(v, if prettify then 0 else -1);
    JsonRoundTrip.RoundTrip(v, prettify);
    var end;
    ok, w, end := ParseText(text);
    left := text[end..];
  }
}
