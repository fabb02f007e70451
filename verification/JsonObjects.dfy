/** The members of an object: a map, in the order of its keys. */
module JsonObjects {
  import opened Json

  // ---- the order of keys -------------------------------------------------------

  /** At the first difference the smaller byte decides, and a proper prefix comes
      first. */
  lemma {:induction false} LessIs(a: Text, b: Text)
    ensures Less(a, b) <==> exists k | 0 <= k <= |a| && k < |b| :: a[..k] == b[..k] && (k == |a| || a[k] < b[k])
  {
    if a != [] && b != [] && a[0] == b[0] {
      LessIs(a[1..], b[1..]);
      if k :| 0 <= k <= |a[1..]| && k < |b[1..]| && a[1..][..k] == b[1..][..k] && (k == |a[1..]| || a[1..][k] < b[1..][k]) {
        assert a[..k + 1] == [a[0]] + a[1..][..k] == b[..k + 1];
      }
      if k :| 0 <= k <= |a| && k < |b| && a[..k] == b[..k] && (k == |a| || a[k] < b[k]) {
        assert k > 0 && a[1..][..k - 1] == a[..k][1..] == b[..k][1..] == b[1..][..k - 1];
      }
    } else if b != [] {
      assert a[..0] == b[..0];
      if k :| 0 <= k <= |a| && k < |b| && a[..k] == b[..k] && (k == |a| || a[k] < b[k]) {
        assert k > 0 ==> a[..k][0] == b[..k][0];
      }
    }
  }

  lemma {:induction false} LessAsymmetric(a: Text, b: Text)
    requires Less(a, b)
    ensures !Less(b, a) && a != b
  {
    if a != [] && a[0] == b[0] {
      LessAsymmetric(a[1..], b[1..]);
    }
  }

  lemma {:induction false} LessTotal(a: Text, b: Text)
    ensures Less(a, b) || a == b || Less(b, a)
  {
    if a != [] && b != [] && a[0] == b[0] {
      LessTotal(a[1..], b[1..]);
      assert a == [a[0]] + a[1..] && b == [b[0]] + b[1..];
    }
  }

  lemma {:induction false} LessTransitive(a: Text, b: Text, c: Text)
    requires Less(a, b) && Less(b, c)
    ensures Less(a, c)
  {
    if a != [] && a[0] == b[0] == c[0] {
      LessTransitive(a[1..], b[1..], c[1..]);
    }
  }

  // ---- one more member ----------------------------------------------------------

  /** The key gets its value, every other key keeps its own, and the members stay
      in order. */
  lemma {:induction false} InsertIs(members: seq<Member>, m: Member)
    requires Sorted(members)
    ensures Sorted(Insert(members, m))
    ensures forall x :: x in Insert(members, m) <==> x == m || (x in members && x.key != m.key)
  {
    hide Less;
    if members != [] {
      var first, others := members[0], members[1..];
      assert members == [first] + others;
      if Less(m.key, first.key) {
        InsertFirst(members, m);
      } else if first.key == m.key {
        InsertOver(members, m);
      } else {
        LessTotal(m.key, first.key);
        InsertIs(others, m);
        LessAsymmetric(first.key, m.key);
        forall x | x in Insert(others, m)
          ensures Less(first.key, x.key)
        {
        }
      }
    }
  }

  lemma InsertFirst(members: seq<Member>, m: Member)
    requires Sorted(members) && members != [] && Less(m.key, members[0].key)
    ensures Sorted([m] + members) && forall i | 0 <= i < |members| :: members[i].key != m.key
  {
    hide Less;
    forall i | 0 <= i < |members|
      ensures Less(m.key, members[i].key) && members[i].key != m.key
    {
      if i > 0 {
        LessTransitive(m.key, members[0].key, members[i].key);
      }
      LessAsymmetric(m.key, members[i].key);
    }
  }

  lemma InsertOver(members: seq<Member>, m: Member)
    requires Sorted(members) && members != [] && m.key == members[0].key
    ensures Sorted([m] + members[1..]) && forall i | 1 <= i < |members| :: members[i].key != m.key
  {
    hide Less;
    forall i | 1 <= i < |members|
      ensures members[i].key != m.key
    {
      LessAsymmetric(m.key, members[i].key);
    }
  }

  // ---- all the members ------------------------------------------------------------

  /** The members of an object in the order of the text, repetitions and all. */
  function ListedFrom(s: Text): Parsed<seq<Member>>
    decreases |s|
  {
    var key := KeyFrom(s);
    if key.Failed? then Failed
    else
      var value := ValueFrom(key.rest);
      if value.Failed? then Failed
      else
        var (more, t) := Expected(value.rest, COMMA);
        if more then
          var others := ListedFrom(t);
          if others.Failed? then Failed else Read([Member(key.value, value.value)] + others.value, others.rest)
        else
          var (end, u) := Expected(t, CLOSE_OBJECT);
          if end then Read([Member(key.value, value.value)], u) else Failed
  }

  predicate HasKey(list: seq<Member>, key: Text) {
    exists m | m in list :: m.key == key
  }

  /** Is `x` in the list, and its key not repeated behind it? */
  predicate Last(list: seq<Member>, x: Member) {
    list != [] && (Last(list[1..], x) || (list[0] == x && !HasKey(list[1..], x.key)))
  }

  /** The object that is read has its members in order, and each key has the value
      it is given last. */
  lemma {:induction false} MembersAre(s: Text, before: seq<Member>)
    requires Sorted(before)
    ensures MembersFrom(s, before).Read? <==> ListedFrom(s).Read?
    ensures MembersFrom(s, before).Read? ==>
              var r, list := MembersFrom(s, before), ListedFrom(s);
              && r.rest == list.rest && r.value.Object? && Sorted(r.value.members)
              && forall x :: x in r.value.members <==> Last(list.value, x) || (x in before && !HasKey(list.value, x.key))
    decreases |s|
  {
    hide KeyFrom, ValueFrom, Expected, Insert, Sorted, Last, HasKey;
    var key := KeyFrom(s);
    if key.Read? && ValueFrom(key.rest).Read? {
      var value := ValueFrom(key.rest);
      var m := Member(key.value, value.value);
      var (more, t) := Expected(value.rest, COMMA);
      InsertIs(before, m);
      if more {
        MembersAre(t, Insert(before, m));
        if ListedFrom(t).Read? {
          LastMore(m, ListedFrom(t).value);
        }
      } else {
        LastMore(m, []);
        assert [m] + [] == [m];
      }
    }
  }

  lemma LastMore(m: Member, list: seq<Member>)
    ensures forall x :: Last([m] + list, x) <==> Last(list, x) || (x == m && !HasKey(list, m.key))
    ensures forall key :: HasKey([m] + list, key) <==> m.key == key || HasKey(list, key)
    ensures list == [] ==> forall x :: !Last(list, x) && !HasKey(list, x.key)
  {
    assert ([m] + list)[1..] == list;
  }

  // ---- every object, at any depth ---------------------------------------------------

  /** Are the members of every object in order? */
  predicate Tidy(v: Value) {
    match v
    case Array(items) => forall i | 0 <= i < |items| :: Tidy(items[i])
    case Object(members) => Sorted(members) && forall m | m in members :: Tidy(m.value)
    case _ => true
  }

  /** So they are in whatever is read. */
  lemma {:induction false} ValueTidy(s: Text)
    ensures ValueFrom(s).Read? ==> Tidy(ValueFrom(s).value)
    decreases |s|, 0
  {
    hide StringFrom, NumberFrom, Numeral, Decimal, AllDigits, ItemsFrom, MembersFrom, Expected, SkipSpace, StartsWith, Sorted;
    NoMembers();
    var t := SkipSpace(s);
    if t != [] && t[0] == OPEN_ARRAY {
      var (empty, u) := Expected(t[1..], CLOSE_ARRAY);
      if !empty {
        ItemsTidy(u, []);
      }
    } else if t != [] && t[0] == OPEN_OBJECT {
      var (empty, u) := Expected(t[1..], CLOSE_OBJECT);
      if !empty {
        MembersTidy(u, []);
      }
    }
  }

  lemma NoMembers()
    ensures Tidy(Object([]))
  {
  }

  lemma {:induction false} ItemsTidy(s: Text, before: seq<Value>)
    requires Tidy(Array(before))
    ensures ItemsFrom(s, before).Read? ==> Tidy(ItemsFrom(s, before).value)
    decreases |s|, 1
  {
    hide ValueFrom, Expected, Sorted;
    ValueTidy(s);
    var item := ValueFrom(s);
    if item.Read? {
      var (more, t) := Expected(item.rest, COMMA);
      if more {
        ItemsTidy(t, before + [item.value]);
      }
    }
  }

  lemma {:induction false} MembersTidy(s: Text, before: seq<Member>)
    requires Tidy(Object(before))
    ensures MembersFrom(s, before).Read? ==> Tidy(MembersFrom(s, before).value)
    decreases |s|, 1
  {
    hide KeyFrom, ValueFrom, Expected, Insert, Sorted;
    var key := KeyFrom(s);
    if key.Read? {
      ValueTidy(key.rest);
      var value := ValueFrom(key.rest);
      if value.Read? {
        InsertIs(before, Member(key.value, value.value));
        var (more, t) := Expected(value.rest, COMMA);
        if more {
          MembersTidy(t, Insert(before, Member(key.value, value.value)));
        }
      }
    }
  }
}
