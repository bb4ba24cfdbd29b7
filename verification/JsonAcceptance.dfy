/**
 The parser of packages/runner/src/execution-plans/execution-plan-json.ts accepts exactly the texts
 that spell a value (RFC 8259 section 2) without repeated names and with numbers in its range.
 */
module JsonAcceptance {
  import opened Wrappers
  import opened JsonText
  import opened JsonGrammar
  import opened JsonRoundTrip
  import opened JsonSpelling

  // ---------------------------------------------------------------- spellings

  /** Space, line feed, carriage return and tab. */
  predicate Blank(s: Text) {
    forall u :: u in s ==> u == 0x20 || u == 0x0A || u == 0x0D || u == 0x09
  }

  /** The text spells the value, with nothing around it. */
  ghost predicate Spells(w: Text, v: Json)
    decreases v, 0
  {
    match v
    case Null => w == [0x6E, 0x75, 0x6C, 0x6C]
    case Bool(b) => w == if b then [0x74, 0x72, 0x75, 0x65] else [0x66, 0x61, 0x6C, 0x73, 0x65]
    case Num(x) => NumberSpells(w, x)
    case Str(s) => StringSpells(w, s)
    case Arr(items) => exists inside :: w == [0x5B] + inside + [0x5D] && InsideArray(inside, items)
    case Obj(members) => exists inside :: w == [0x7B] + inside + [0x7D] && InsideObject(inside, members)
  }

  ghost predicate InsideArray(w: Text, items: seq<Json>)
    decreases items, 3
  {
    if items == [] then Blank(w) else ItemsSpell(w, items)
  }

  ghost predicate InsideObject(w: Text, members: seq<Member>)
    decreases members, 4
  {
    if members == [] then Blank(w) else MembersSpell(w, members)
  }

  /** With blanks around the value. */
  ghost predicate Padded(w: Text, v: Json)
    decreases v, 1
  {
    exists x, y, z :: w == x + (y + z) && Blank(x) && Spells(y, v) && Blank(z)
  }

  /** Padded items with commas between them. */
  ghost predicate ItemsSpell(w: Text, items: seq<Json>)
    requires items != []
    decreases items, 2
  {
    if |items| == 1 then Padded(w, items[0])
    else exists x, y :: w == x + ([0x2C] + y) && Padded(x, items[0]) && ItemsSpell(y, items[1..])
  }

  /** A name, a colon and a padded value, with blanks before the name and the colon. */
  ghost predicate MemberSpells(w: Text, m: Member)
    decreases m, 2
  {
    exists x, name, y, value ::
      w == x + (name + (y + ([0x3A] + value))) && NamedValue(x, name, y, m.key) && Padded(value, m.value)
  }

  ghost predicate NamedValue(x: Text, name: Text, y: Text, key: Text) {
    Blank(x) && StringSpells(name, key) && Blank(y)
  }

  ghost predicate MembersSpell(w: Text, members: seq<Member>)
    requires members != []
    decreases members, 3
  {
    if |members| == 1 then MemberSpells(w, members[0])
    else exists x, y :: w == x + ([0x2C] + y) && MemberSpells(x, members[0]) && MembersSpell(y, members[1..])
  }

  // ---------------------------------------------------------------- white space

  lemma {:induction false} SkipBlank(x: Text, t: Text)
    requires Blank(x) && (t == [] || !IsWhitespace(t[0]))
    ensures SkipWhitespace(x + t) == t
  {
    if x == [] {
      assert x + t == t;
    } else {
      assert x[0] in x && (x + t)[1..] == x[1..] + t && forall u :: u in x[1..] ==> u in x;
      SkipBlank(x[1..], t);
    }
  }

  lemma {:induction false} SkippedIsBlank(t: Text) returns (x: Text)
    ensures t == x + SkipWhitespace(t) && Blank(x)
    ensures SkipWhitespace(t) == [] || !IsWhitespace(SkipWhitespace(t)[0])
  {
    if t != [] && IsWhitespace(t[0]) {
      var y := SkippedIsBlank(t[1..]);
      x := [t[0]] + y;
      assert t == [t[0]] + t[1..];
    } else {
      x := [];
      assert [] + t == t;
    }
  }

  /** Blanks, and then something that cannot go on with a number. */
  lemma BlankDelimits(z: Text, t: Text)
    requires Blank(z) && Delimited(t)
    ensures Delimited(z + t)
  {
    if z == [] {
      assert z + t == t;
    } else {
      assert z[0] in z && (z + t)[0] == z[0];
    }
  }

  // ---------------------------------------------------------------- spelled values are read

  lemma SpelledStart(w: Text, v: Json)
    requires Spells(w, v)
    ensures w != [] && !IsWhitespace(w[0]) && w[0] != CLOSE_BRACKET && w[0] != CLOSE_BRACE
    ensures v.Num? ==> w[0] == MINUS || IsDigit(w[0])
    ensures v.Str? ==> w[0] == QUOTE
    ensures v.Arr? ==> w[0] == OPEN_BRACKET
    ensures v.Obj? ==> w[0] == OPEN_BRACE
  {
    match v
    case Num(x) => NumberStart(w, x);
    case _ =>
  }

  lemma NumberStart(w: Text, x: Number)
    requires NumberSpells(w, x)
    ensures w != [] && (w[0] == MINUS || IsDigit(w[0]))
  {
    var p :| PartsSpell(p, w, x);
    assert IsDigit(p.whole[0]) && w[|p.sign|] == p.whole[0];
  }

  lemma {:induction false} SpelledIsRead(w: Text, v: Json, rest: Text)
    requires Spells(w, v) && WellFormed(v) && Delimited(rest)
    ensures ReadValue(w + rest) == Ok(Read(v, rest))
    decreases v, 0
  {
    hide ReadString, ReadNumber, ReadArray, ReadObject, ReadLiteral, StringSpells, NumberSpells, InsideArray,
      InsideObject;
    var s := w + rest;
    SpelledStart(w, v);
    assert s[0] == w[0];
    assert SkipWhitespace(s) == s;
    match v
    case Null => ReadWrittenLiteral(v, rest);
    case Bool(b) => ReadWrittenLiteral(v, rest);
    case Num(x) => SpelledNumberIsRead(w, x, rest);
    case Str(text) => SpelledStringIsRead(w, text, rest);
    case Arr(items) =>
      var inside :| w == [0x5B] + inside + [0x5D] && InsideArray(inside, items);
      assert s[1..] == inside + ([CLOSE_BRACKET] + rest);
      SpelledArrayIsRead(inside, items, rest);
    case Obj(members) =>
      var inside :| w == [0x7B] + inside + [0x7D] && InsideObject(inside, members);
      assert s[1..] == inside + ([CLOSE_BRACE] + rest);
      SpelledObjectIsRead(inside, members, rest);
  }

  /** Reading a value starts by skipping white space. */
  lemma SkipsFirst(s: Text, t: Text)
    requires SkipWhitespace(s) == SkipWhitespace(t)
    ensures ReadValue(s) == ReadValue(t)
  {
    hide ReadString, ReadNumber, ReadArray, ReadObject, ReadLiteral;
  }

  lemma BlankSkips(x: Text, t: Text)
    requires Blank(x) && t != [] && !IsWhitespace(t[0])
    ensures SkipWhitespace(x + t) == t && ReadValue(x + t) == ReadValue(t)
  {
    SkipBlank(x, t);
    assert SkipWhitespace(t) == t;
    hide SkipWhitespace, ReadValue;
    SkipsFirst(x + t, t);
  }

  lemma PaddedApart(x: Text, y: Text, z: Text, t: Text)
    ensures x + (y + z) + t == x + (y + (z + t))
  {
    Associates(x, y + z, t);
    Associates(y, z, t);
  }

  lemma SpelledFirst(y: Text, v: Json, t: Text)
    requires Spells(y, v)
    ensures
      var s := y + t;
      s != [] && !IsWhitespace(s[0]) && s[0] != CLOSE_BRACKET && s[0] != CLOSE_BRACE
  {
    SpelledStart(y, v);
    hide Spells;
    assert (y + t)[0] == y[0];
  }

  lemma {:induction false} PaddedIsRead(w: Text, v: Json, rest: Text) returns (z: Text)
    requires Padded(w, v) && WellFormed(v) && Delimited(rest)
    ensures Blank(z) && ReadValue(w + rest) == Ok(Read(v, z + rest))
    decreases v, 1
  {
    var x, y, z' :| w == x + (y + z') && Blank(x) && Spells(y, v) && Blank(z');
    z := z';
    hide Spells, Blank, WellFormed, Delimited, ReadValue, Padded, SkipWhitespace;
    BlankDelimits(z, rest);
    SpelledFirst(y, v, z + rest);
    PaddedApart(x, y, z, rest);
    BlankSkips(x, y + (z + rest));
    SpelledIsRead(y, v, z + rest);
  }

  lemma {:induction false} SpelledArrayIsRead(w: Text, items: seq<Json>, rest: Text)
    requires InsideArray(w, items) && forall x :: x in items ==> WellFormed(x)
    ensures ReadArray(w + ([CLOSE_BRACKET] + rest)) == Ok(Read(items, rest))
    decreases items, 3
  {
    var t := [CLOSE_BRACKET] + rest;
    if items == [] {
      SkipBlank(w, t);
      assert t[1..] == rest;
    } else {
      ItemsStart(w, items, t);
      SpelledItemsAreRead(w, items, rest);
    }
  }

  /** Items do not start with the closing bracket, and reading them starts by skipping white space. */
  lemma ItemsStart(w: Text, items: seq<Json>, t: Text)
    requires items != [] && ItemsSpell(w, items)
    ensures !Starts(SkipWhitespace(w + t), CLOSE_BRACKET)
    ensures ReadItems(SkipWhitespace(w + t)) == ReadItems(w + t)
  {
    if |items| == 1 {
      hide Padded, ReadValue, SkipWhitespace;
      PaddedStart(w, items[0], t);
    } else {
      var x, y :| w == x + ([0x2C] + y) && Padded(x, items[0]) && ItemsSpell(y, items[1..]);
      hide ItemsSpell, Padded, ReadValue, SkipWhitespace;
      CommaApart(x, y, t);
      PaddedStart(x, items[0], [0x2C] + (y + t));
    }
  }

  lemma PaddedStart(w: Text, v: Json, t: Text)
    requires Padded(w, v)
    ensures
      var s := SkipWhitespace(w + t);
      && s != [] && s[0] != CLOSE_BRACKET && s[0] != CLOSE_BRACE && ReadValue(s) == ReadValue(w + t)
  {
    var x, y, z :| w == x + (y + z) && Blank(x) && Spells(y, v) && Blank(z);
    hide Spells, Blank, ReadValue, Padded, SkipWhitespace;
    SpelledFirst(y, v, z + t);
    PaddedApart(x, y, z, t);
    BlankSkips(x, y + (z + t));
  }

  lemma CommaApart(x: Text, y: Text, t: Text)
    ensures x + ([0x2C] + y) + t == x + ([0x2C] + (y + t)) && ([0x2C] + (y + t))[1..] == y + t
  {
    Associates(x, [0x2C] + y, t);
    Associates([0x2C], y, t);
  }

  lemma BlankThen(z: Text, u: nat, t: Text)
    requires Blank(z) && (u == COMMA || u == CLOSE_BRACKET || u == CLOSE_BRACE || u == COLON)
    ensures SkipWhitespace(z + ([u] + t)) == [u] + t && ([u] + t)[1..] == t
  {
    SkipBlank(z, [u] + t);
  }

  lemma ItemsApart(w: Text, items: seq<Json>) returns (x: Text, y: Text)
    requires |items| > 1 && ItemsSpell(w, items)
    ensures w == x + ([COMMA] + y) && Padded(x, items[0]) && ItemsSpell(y, items[1..])
  {
    hide Padded;
    x, y :| w == x + ([0x2C] + y) && Padded(x, items[0]) && ItemsSpell(y, items[1..]);
  }

  lemma OnlyItem(w: Text, items: seq<Json>)
    requires |items| == 1 && ItemsSpell(w, items)
    ensures Padded(w, items[0]) && items == [items[0]]
  {
    hide Padded;
  }

  lemma {:induction false} SpelledItemsAreRead(w: Text, items: seq<Json>, rest: Text)
    requires items != [] && ItemsSpell(w, items) && forall x :: x in items ==> WellFormed(x)
    ensures ReadItems(w + ([CLOSE_BRACKET] + rest)) == Ok(Read(items, rest))
    decreases items, 2
  {
    hide ReadValue, ReadItems, Padded, Blank, ItemsSpell, WellFormed, SkipWhitespace;
    var t := [CLOSE_BRACKET] + rest;
    assert items[0] in items;
    if |items| == 1 {
      OnlyItem(w, items);
      var z := PaddedIsRead(w, items[0], t);
      LastItem(w + t, items[0], z, rest);
    } else {
      var x, y := ItemsApart(w, items);
      CommaApart(x, y, t);
      var z := PaddedIsRead(x, items[0], [COMMA] + (y + t));
      assert forall i :: i in items[1..] ==> i in items;
      SpelledItemsAreRead(y, items[1..], rest);
      ItemAndMore(x + ([COMMA] + (y + t)), items[0], z, y + t, items[1..], rest);
      assert items == [items[0]] + items[1..];
    }
  }

  lemma LastItem(s: Text, v: Json, z: Text, rest: Text)
    requires Blank(z) && ReadValue(s) == Ok(Read(v, z + ([CLOSE_BRACKET] + rest)))
    ensures ReadItems(s) == Ok(Read([v], rest))
  {
    hide Blank, ReadValue, SkipWhitespace;
    BlankThen(z, CLOSE_BRACKET, rest);
  }

  lemma ItemAndMore(s: Text, v: Json, z: Text, more: Text, items: seq<Json>, rest: Text)
    requires Blank(z) && ReadValue(s) == Ok(Read(v, z + ([COMMA] + more))) && ReadItems(more) == Ok(Read(items, rest))
    ensures ReadItems(s) == Ok(Read([v] + items, rest))
  {
    hide Blank, ReadValue, SkipWhitespace;
    BlankThen(z, COMMA, more);
  }

  lemma {:induction false} SpelledObjectIsRead(w: Text, members: seq<Member>, rest: Text)
    requires InsideObject(w, members) && UniqueKeys(members) && forall m :: m in members ==> WellFormed(m.value)
    ensures ReadObject(w + ([CLOSE_BRACE] + rest)) == Ok(Read(members, rest))
    decreases members, 4
  {
    var t := [CLOSE_BRACE] + rest;
    if members == [] {
      SkipBlank(w, t);
      assert t[1..] == rest;
    } else {
      MembersStart(w, members, t);
      SpelledMembersAreRead(w, members, {}, rest);
    }
  }

  lemma MembersStart(w: Text, members: seq<Member>, t: Text)
    requires members != [] && MembersSpell(w, members)
    ensures !Starts(SkipWhitespace(w + t), CLOSE_BRACE)
    ensures ReadMembers(SkipWhitespace(w + t), {}) == ReadMembers(w + t, {})
  {
    if |members| == 1 {
      hide MemberSpells, ReadMember, SkipWhitespace;
      MemberStart(w, members[0], t);
    } else {
      var x, y :| w == x + ([0x2C] + y) && MemberSpells(x, members[0]) && MembersSpell(y, members[1..]);
      hide MembersSpell, MemberSpells, ReadMember, SkipWhitespace;
      CommaApart(x, y, t);
      MemberStart(x, members[0], [0x2C] + (y + t));
    }
  }

  lemma MemberApart(x: Text, name: Text, y: Text, value: Text, t: Text)
    ensures x + (name + (y + ([0x3A] + value))) + t == x + (name + (y + ([0x3A] + (value + t))))
  {
    PaddedApart(x, name, y + ([0x3A] + value), t);
    PaddedApart(y, [0x3A], value, t);
  }

  lemma MemberSkips(x: Text, t: Text, seen: set<Text>)
    requires Blank(x) && t != [] && t[0] == QUOTE
    ensures SkipWhitespace(x + t) == t && ReadMember(x + t, seen) == ReadMember(t, seen)
  {
    SkipBlank(x, t);
    assert SkipWhitespace(t) == t;
    hide SkipWhitespace, ReadValue, ReadString;
  }

  lemma MemberStart(w: Text, m: Member, t: Text)
    requires MemberSpells(w, m)
    ensures
      var s := SkipWhitespace(w + t);
      s != [] && s[0] != CLOSE_BRACE && ReadMember(s, {}) == ReadMember(w + t, {})
  {
    var x, name, y, value :|
      w == x + (name + (y + ([0x3A] + value))) && NamedValue(x, name, y, m.key) && Padded(value, m.value);
    var s := name + (y + ([0x3A] + (value + t)));
    assert s[0] == name[0] == QUOTE;
    hide Blank, Padded, StringSpells, ReadMember, SkipWhitespace, MemberSpells;
    MemberApart(x, name, y, value, t);
    MemberSkips(x, s, {});
  }

  lemma {:induction false} SpelledMemberIsRead(w: Text, m: Member, seen: set<Text>, rest: Text) returns (z: Text)
    requires MemberSpells(w, m) && WellFormed(m.value) && m.key !in seen && Delimited(rest)
    ensures Blank(z) && ReadMember(w + rest, seen) == Ok(Read(m, z + rest))
    decreases m, 2
  {
    var x, name, y, value :|
      w == x + (name + (y + ([0x3A] + value))) && NamedValue(x, name, y, m.key) && Padded(value, m.value);
    var s := name + (y + ([COLON] + (value + rest)));
    assert s[0] == name[0] == QUOTE;
    hide Blank, Padded, StringSpells, ReadMember, SkipWhitespace, MemberSpells, WellFormed, Delimited, ReadValue,
      ReadString;
    MemberApart(x, name, y, value, rest);
    MemberSkips(x, s, seen);
    z := PaddedIsRead(value, m.value, rest);
    NamedIsRead(name, m, y, value + rest, z + rest, seen);
  }

  lemma NamedIsRead(name: Text, m: Member, y: Text, behind: Text, rest: Text, seen: set<Text>)
    requires StringSpells(name, m.key) && Blank(y) && m.key !in seen && ReadValue(behind) == Ok(Read(m.value, rest))
    ensures ReadMember(name + (y + ([COLON] + behind)), seen) == Ok(Read(m, rest))
  {
    var s := name + (y + ([COLON] + behind));
    assert s[0] == name[0] == QUOTE && SkipWhitespace(s) == s;
    hide Blank, StringSpells, SkipWhitespace, ReadValue, ReadString;
    SpelledStringIsRead(name, m.key, y + ([COLON] + behind));
    BlankThen(y, COLON, behind);
  }

  lemma MembersApart(w: Text, members: seq<Member>) returns (x: Text, y: Text)
    requires |members| > 1 && MembersSpell(w, members)
    ensures w == x + ([COMMA] + y) && MemberSpells(x, members[0]) && MembersSpell(y, members[1..])
  {
    hide MemberSpells;
    x, y :| w == x + ([0x2C] + y) && MemberSpells(x, members[0]) && MembersSpell(y, members[1..]);
  }

  lemma OnlyMember(w: Text, members: seq<Member>)
    requires |members| == 1 && MembersSpell(w, members)
    ensures MemberSpells(w, members[0]) && members == [members[0]]
  {
    hide MemberSpells;
  }

  lemma {:induction false} SpelledMembersAreRead(w: Text, members: seq<Member>, seen: set<Text>, rest: Text)
    requires members != [] && MembersSpell(w, members) && UniqueKeys(members)
    requires forall m :: m in members ==> WellFormed(m.value) && m.key !in seen
    ensures ReadMembers(w + ([CLOSE_BRACE] + rest), seen) == Ok(Read(members, rest))
    decreases members, 3
  {
    hide ReadMember, ReadMembers, MemberSpells, MembersSpell, WellFormed, Blank, SkipWhitespace, UniqueKeys;
    var t := [CLOSE_BRACE] + rest;
    assert members[0] in members;
    if |members| == 1 {
      OnlyMember(w, members);
      var z := SpelledMemberIsRead(w, members[0], seen, t);
      LastMember(w + t, members[0], z, rest, seen);
    } else {
      var x, y := MembersApart(w, members);
      CommaApart(x, y, t);
      var z := SpelledMemberIsRead(x, members[0], seen, [COMMA] + (y + t));
      LaterMembers(members, seen);
      SpelledMembersAreRead(y, members[1..], seen + {members[0].key}, rest);
      MemberAndMore(x + ([COMMA] + (y + t)), members[0], z, y + t, members[1..], rest, seen);
      assert members == [members[0]] + members[1..];
    }
  }

  lemma LaterMembers(members: seq<Member>, seen: set<Text>)
    requires members != [] && UniqueKeys(members)
    requires forall m :: m in members ==> WellFormed(m.value) && m.key !in seen
    ensures UniqueKeys(members[1..])
    ensures forall m :: m in members[1..] ==> WellFormed(m.value) && m.key !in seen + {members[0].key}
  {
    hide WellFormed;
    forall m | m in members[1..] ensures m in members && m.key != members[0].key {
      var i :| 0 <= i < |members[1..]| && members[1..][i] == m;
      assert members[i + 1] == m;
    }
  }

  lemma LastMember(s: Text, m: Member, z: Text, rest: Text, seen: set<Text>)
    requires Blank(z) && ReadMember(s, seen) == Ok(Read(m, z + ([CLOSE_BRACE] + rest)))
    ensures ReadMembers(s, seen) == Ok(Read([m], rest))
  {
    hide Blank, ReadMember, SkipWhitespace;
    BlankThen(z, CLOSE_BRACE, rest);
  }

  lemma MemberAndMore(s: Text, m: Member, z: Text, more: Text, members: seq<Member>, rest: Text, seen: set<Text>)
    requires Blank(z) && ReadMember(s, seen) == Ok(Read(m, z + ([COMMA] + more)))
    requires ReadMembers(more, seen + {m.key}) == Ok(Read(members, rest))
    ensures ReadMembers(s, seen) == Ok(Read([m] + members, rest))
  {
    hide Blank, ReadMember, SkipWhitespace;
    BlankThen(z, COMMA, more);
  }

  // ---------------------------------------------------------------- what is read is a spelling

  lemma LiteralIsSpelled(s: Text, v: Json, rest: Text) returns (w: Text)
    requires ReadLiteral(s) == Ok(Read(v, rest))
    ensures s == w + rest && Spells(w, v)
  {
    w := if TRUE <= s then TRUE else if FALSE <= s then FALSE else NULL;
  }

  lemma Bracketed(s: Text, open: nat, inside: Text, close: nat, rest: Text)
    requires s != [] && s[0] == open && s[1..] == inside + ([close] + rest)
    ensures s == [open] + inside + [close] + rest
  {
    assert s == [open] + s[1..];
  }

  lemma {:induction false} ReadIsSpelled(t: Text, v: Json, rest: Text) returns (x: Text, w: Text)
    requires ReadValue(t) == Ok(Read(v, rest))
    ensures t == x + (w + rest) && Blank(x) && Spells(w, v)
    decreases |t|, 1
  {
    var s := SkipWhitespace(t);
    x := SkippedIsBlank(t);
    hide Blank, StringSpells, NumberSpells, InsideArray, InsideObject, ReadString, ReadNumber, ReadLiteral, ReadArray,
      ReadObject;
    if Starts(s, OPEN_BRACE) {
      var inside := ReadObjectIsSpelled(s[1..], v.members, rest);
      w := [0x7B] + inside + [0x7D];
      Bracketed(s, 0x7B, inside, 0x7D, rest);
    } else if Starts(s, OPEN_BRACKET) {
      var inside := ReadArrayIsSpelled(s[1..], v.items, rest);
      w := [0x5B] + inside + [0x5D];
      Bracketed(s, 0x5B, inside, 0x5D, rest);
    } else if Starts(s, QUOTE) {
      w := ReadStringIsSpelled(s, v.s, rest);
    } else if Starts(s, MINUS) || (s != [] && IsDigit(s[0])) {
      w := ReadNumberIsSpelled(s, v.x, rest);
    } else {
      w := LiteralIsSpelled(s, v, rest);
    }
  }

  lemma {:induction false} ReadArrayIsSpelled(s: Text, items: seq<Json>, rest: Text) returns (inside: Text)
    requires ReadArray(s) == Ok(Read(items, rest))
    ensures s == inside + ([CLOSE_BRACKET] + rest) && InsideArray(inside, items)
    decreases |s|, 4
  {
    var t := SkipWhitespace(s);
    var x := SkippedIsBlank(s);
    if Starts(t, CLOSE_BRACKET) {
      inside := x;
      assert t == [CLOSE_BRACKET] + rest;
    } else {
      var more := ReadItemsAreSpelled(t, items, rest);
      inside := x + more;
      BlankBeforeItems(x, more, items);
    }
  }

  lemma BlankBeforeValue(x: Text, w: Text, v: Json)
    requires Blank(x) && Padded(w, v)
    ensures Padded(x + w, v)
  {
    var a, y, z :| w == a + (y + z) && Blank(a) && Spells(y, v) && Blank(z);
    assert x + w == (x + a) + (y + z);
    hide Spells;
    assert Blank(x + a);
  }

  lemma BlankBeforeItems(x: Text, w: Text, items: seq<Json>)
    requires items != [] && Blank(x) && ItemsSpell(w, items)
    ensures ItemsSpell(x + w, items)
  {
    hide Blank, Padded;
    if |items| == 1 {
      BlankBeforeValue(x, w, items[0]);
    } else {
      var a, b :| w == a + ([0x2C] + b) && Padded(a, items[0]) && ItemsSpell(b, items[1..]);
      BlankBeforeValue(x, a, items[0]);
      assert x + w == (x + a) + ([0x2C] + b);
    }
  }

  lemma OneItem(w: Text, v: Json)
    requires Padded(w, v)
    ensures ItemsSpell(w, [v])
  {
  }

  lemma MoreItems(x: Text, v: Json, y: Text, items: seq<Json>)
    requires Padded(x, v) && items != [] && ItemsSpell(y, items)
    ensures ItemsSpell(x + ([0x2C] + y), [v] + items)
  {
    assert ([v] + items)[1..] == items && ([v] + items)[0] == v;
    hide Padded;
  }

  lemma PaddedText(x: Text, w: Text, z: Text, v: Json)
    requires Blank(x) && Spells(w, v) && Blank(z)
    ensures Padded(x + (w + z), v)
  {
  }

  lemma {:induction false} ReadItemsAreSpelled(s: Text, items: seq<Json>, rest: Text) returns (inside: Text)
    requires ReadItems(s) == Ok(Read(items, rest))
    ensures items != [] && s == inside + ([CLOSE_BRACKET] + rest) && ItemsSpell(inside, items)
    decreases |s|, 2
  {
    hide Spells, Blank, ReadValue, Padded, ItemsSpell, SkipWhitespace;
    var v, after := ReadValue(s).value.value, ReadValue(s).value.rest;
    var x, w := ReadIsSpelled(s, v, after);
    var t := SkipWhitespace(after);
    var z := SkippedIsBlank(after);
    var padded := x + (w + z);
    PaddedText(x, w, z, v);
    PaddedApart(x, w, z, t);
    if Starts(t, CLOSE_BRACKET) {
      inside := padded;
      OneItem(padded, v);
      assert t == [CLOSE_BRACKET] + rest;
    } else {
      var more := ReadItemsAreSpelled(t[1..], items[1..], rest);
      inside := padded + ([0x2C] + more);
      MoreItems(padded, v, more, items[1..]);
      assert t == [0x2C] + t[1..] && items == [v] + items[1..];
      CommaApart(padded, more, [CLOSE_BRACKET] + rest);
    }
  }

  lemma {:induction false} ReadObjectIsSpelled(s: Text, members: seq<Member>, rest: Text) returns (inside: Text)
    requires ReadObject(s) == Ok(Read(members, rest))
    ensures s == inside + ([CLOSE_BRACE] + rest) && InsideObject(inside, members)
    decreases |s|, 4
  {
    var t := SkipWhitespace(s);
    var x := SkippedIsBlank(s);
    if Starts(t, CLOSE_BRACE) {
      inside := x;
      assert t == [CLOSE_BRACE] + rest;
    } else {
      var more := ReadMembersAreSpelled(t, {}, members, rest);
      inside := x + more;
      BlankBeforeMembers(x, more, members);
    }
  }

  lemma BlankBeforeMember(x: Text, w: Text, m: Member)
    requires Blank(x) && MemberSpells(w, m)
    ensures MemberSpells(x + w, m)
  {
    hide StringSpells, Padded;
    var a, name, y, value :|
      w == a + (name + (y + ([0x3A] + value))) && NamedValue(a, name, y, m.key) && Padded(value, m.value);
    assert x + w == (x + a) + (name + (y + ([0x3A] + value)));
    assert NamedValue(x + a, name, y, m.key);
  }

  lemma BlankBeforeMembers(x: Text, w: Text, members: seq<Member>)
    requires members != [] && Blank(x) && MembersSpell(w, members)
    ensures MembersSpell(x + w, members)
  {
    hide Blank, MemberSpells;
    if |members| == 1 {
      BlankBeforeMember(x, w, members[0]);
    } else {
      var a, b :| w == a + ([0x2C] + b) && MemberSpells(a, members[0]) && MembersSpell(b, members[1..]);
      BlankBeforeMember(x, a, members[0]);
      assert x + w == (x + a) + ([0x2C] + b);
    }
  }

  lemma {:induction false} ReadMemberIsSpelled(text: Text, seen: set<Text>, m: Member, rest: Text)
      returns (x: Text, name: Text, y: Text, blank: Text, value: Text)
    requires ReadMember(text, seen) == Ok(Read(m, rest))
    ensures text == x + (name + (y + ([0x3A] + (blank + (value + rest)))))
    ensures Blank(x) && StringSpells(name, m.key) && Blank(y) && Blank(blank) && Spells(value, m.value)
    decreases |text|, 2
  {
    hide Spells, Blank, ReadValue, ReadString, StringSpells, SkipWhitespace;
    var s := SkipWhitespace(text);
    x := SkippedIsBlank(text);
    var key := ReadString(s).value;
    name := ReadStringIsSpelled(s, key.value, key.rest);
    var t := SkipWhitespace(key.rest);
    y := SkippedIsBlank(key.rest);
    blank, value := ReadIsSpelled(t[1..], m.value, rest);
    assert t == [0x3A] + t[1..];
  }

  lemma MemberText(x: Text, name: Text, y: Text, blank: Text, value: Text, z: Text, m: Member)
    requires Blank(x) && StringSpells(name, m.key) && Blank(y) && Blank(blank) && Spells(value, m.value) && Blank(z)
    ensures MemberSpells(x + (name + (y + ([0x3A] + (blank + (value + z))))), m)
  {
    hide Blank, StringSpells, Spells, Padded;
    PaddedText(blank, value, z, m.value);
    assert NamedValue(x, name, y, m.key);
    hide NamedValue;
    var padded := blank + (value + z);
    assert Padded(padded, m.value);
  }

  lemma OneMember(w: Text, m: Member)
    requires MemberSpells(w, m)
    ensures MembersSpell(w, [m])
  {
  }

  lemma MoreMembers(x: Text, m: Member, y: Text, members: seq<Member>)
    requires MemberSpells(x, m) && members != [] && MembersSpell(y, members)
    ensures MembersSpell(x + ([0x2C] + y), [m] + members)
  {
    assert ([m] + members)[1..] == members && ([m] + members)[0] == m;
    hide MemberSpells;
  }

  lemma MemberBefore(x: Text, name: Text, y: Text, blank: Text, value: Text, z: Text, t: Text)
    ensures x + (name + (y + ([0x3A] + (blank + (value + z))))) + t
         == x + (name + (y + ([0x3A] + (blank + (value + (z + t))))))
  {
    MemberApart(x, name, y, blank + (value + z), t);
    PaddedApart(blank, value, z, t);
  }

  lemma {:induction false} ReadMembersAreSpelled(s: Text, seen: set<Text>, members: seq<Member>, rest: Text)
      returns (inside: Text)
    requires ReadMembers(s, seen) == Ok(Read(members, rest))
    ensures members != [] && s == inside + ([CLOSE_BRACE] + rest) && MembersSpell(inside, members)
    decreases |s|, 3
  {
    hide MemberSpells, MembersSpell, Blank, ReadMember, Spells, StringSpells, SkipWhitespace;
    var m, after := ReadMember(s, seen).value.value, ReadMember(s, seen).value.rest;
    var x, name, y, blank, value := ReadMemberIsSpelled(s, seen, m, after);
    var t := SkipWhitespace(after);
    var z := SkippedIsBlank(after);
    var member := x + (name + (y + ([0x3A] + (blank + (value + z)))));
    MemberText(x, name, y, blank, value, z, m);
    MemberBefore(x, name, y, blank, value, z, t);
    if Starts(t, CLOSE_BRACE) {
      inside := member;
      OneMember(member, m);
      assert t == [CLOSE_BRACE] + rest;
    } else {
      var more := ReadMembersAreSpelled(t[1..], seen + {m.key}, members[1..], rest);
      inside := member + ([0x2C] + more);
      MoreMembers(member, m, more, members[1..]);
      assert t == [0x2C] + t[1..] && members == [m] + members[1..];
      CommaApart(member, more, [CLOSE_BRACE] + rest);
    }
  }

  /**
   Parsing a text gives a value exactly when the text spells the value, with blanks around it, and the
   value repeats no name and holds no number out of range.
   */
  lemma ParsesExactlyWhenSpelled(source: Text, v: Json)
    ensures Parse(source) == Ok(v) <==> WellFormed(v) && Padded(source, v)
  {
    hide Spells, Blank, WellFormed;
    if Parse(source) == Ok(v) {
      ParsedIsWellFormed(source);
      var rest := ReadValue(source).value.rest;
      var x, w := ReadIsSpelled(source, v, rest);
      var z := SkippedIsBlank(rest);
      assert z + [] == z;
      assert source == x + (w + z);
    }
    if WellFormed(v) && Padded(source, v) {
      var z := PaddedIsRead(source, v, []);
      SkipBlank(z, []);
      assert source + [] == source;
      hide ReadValue, Padded;
    }
  }

  // ---------------------------------------------------------------- the range of numbers

  function ValueOf(x: Number): real {
    match x
    case Whole(n) => n as real
    case Decimal(m, places) => if Pow10(places) == 0 then 0.0 else m as real / Pow10(places) as real
  }

  lemma TimesKeepsOrder(x: real, y: real, p: real)
    requires p > 0.0
    ensures x <= y <==> x * p <= y * p
  {
    if x <= y {
      assert (y - x) * p >= 0.0;
    } else {
      assert (x - y) * p > 0.0;
    }
  }

  lemma TimesBack(m: int, p: nat)
    requires p > 0
    ensures (m as real / p as real) * p as real == m as real
  {
  }

  lemma ProductOfReals(a: int, p: nat)
    ensures a as real * p as real == (a * p) as real
  {
  }

  lemma NegatedProduct(x: real, p: real)
    ensures (-x) * p == -(x * p)
  {
  }

  lemma RangeOfInteger(m: int, n: nat)
    ensures -(n as real) <= m as real <= n as real <==> Abs(m) <= n
  {
  }

  lemma RangeOfProduct(q: real, b: real, p: real, m: real, most: real)
    requires p > 0.0 && q * p == m && b * p == most
    ensures -b <= q <= b <==> -most <= m <= most
  {
    NegatedProduct(b, p);
    TimesKeepsOrder(q, b, p);
    TimesKeepsOrder(-b, q, p);
  }

  lemma RangeOfQuotient(m: int, p: nat, bound: nat)
    requires p > 0
    ensures -(bound as real) <= m as real / p as real <= bound as real <==> Abs(m) <= bound * p
  {
    TimesBack(m, p);
    ProductOfReals(bound, p);
    RangeOfProduct(m as real / p as real, bound as real, p as real, m as real, (bound * p) as real);
    RangeOfInteger(m, bound * p);
  }

  /** A spelled number is accepted exactly when it is no larger than 2^53 - 1, either way. */
  lemma NumberAcceptedExactlyWhen(w: Text, x: Number)
    requires NumberSpells(w, x)
    ensures Parse(w) == Ok(Num(x)) <==> -9007199254740991.0 <= ValueOf(x) <= 9007199254740991.0
  {
    assert Spells(w, Num(x)) && Blank([]) && w == [] + (w + []);
    assert IsNormal(x);
    ParsesExactlyWhenSpelled(w, Num(x));
    hide Spells, NumberSpells, Parse;
    if x.Decimal? {
      PowIsPositive(x.places);
      RangeOfQuotient(x.m, Pow10(x.places), MAX_SAFE_INTEGER);
    }
  }
}
