/**
 UniqueKeyJsonParser (packages/runner/src/execution-plans/execution-plan-json.ts): the parser
 with its mutable offset, each routine proved against the grammar function of the same name.
 */
module JsonParser {
  import opened Wrappers
  import opened JsonText
  import opened G = JsonGrammar

  // ---------------------------------------------------------------- the parser

  /** The value of a routine, without what it left to read. */
  function Outcome<T>(r: Result<Read<T>, Fault>): Result<T, Fault> {
    match r
    case Ok(read) => Ok(read.value)
    case Err(fault) => Err(fault)
  }

  /** What reading the rest of a list becomes, given the elements already read. */
  function Prepend<T>(done: seq<T>, r: Result<Read<seq<T>>, Fault>): Result<Read<seq<T>>, Fault> {
    match r
    case Ok(read) => Ok(Read(done + read.value, read.rest))
    case Err(fault) => Err(fault)
  }

  lemma PrependNothing<T>(r: Result<Read<seq<T>>, Fault>)
    ensures Prepend([], r) == r
  {
    if r.Ok? {
      assert [] + r.value.value == r.value.value;
    }
  }

  lemma PrependOneMore<T>(done: seq<T>, x: T, r: Result<Read<seq<T>>, Fault>)
    ensures Prepend(done + [x], r) == Prepend(done, Prepend([x], r))
  {
    if r.Ok? {
      assert (done + [x]) + r.value.value == done + ([x] + r.value.value);
    }
  }

  class UniqueKeyJsonParser {
    const source: Text
    var offset: nat

    constructor (source: Text)
      ensures this.source == source && offset == 0
    {
      this.source := source;
      offset := 0;
    }

    ghost predicate Valid()
      reads this
    {
      offset <= |source|
    }

    /** The text that is left to read. */
    ghost function Left(): Text
      reads this
      requires Valid()
    {
      source[offset..]
    }

    predicate At(u: nat)
      reads this
      requires Valid()
      ensures At(u) <==> Starts(Left(), u)
    {
      offset < |source| && source[offset] == u
    }

    method Advance(count: nat)
      requires Valid() && count <= |Left()|
      modifies this
      ensures Valid() && Left() == old(Left())[count..] && offset == old(offset) + count
    {
      offset := offset + count;
    }

    method Parse() returns (result: Result<Json, Fault>)
      requires offset == 0
      modifies this
      ensures result == G.Parse(source)
    {
      assert Left() == source;
      var value :- ParseValue();
      SkipWhitespace();
      if offset != |source| {
        return Err(TrailingInput);
      }
      return Ok(value);
    }

    method SkipWhitespace()
      requires Valid()
      modifies this
      ensures Valid() && Left() == G.SkipWhitespace(old(Left()))
    {
      while offset < |source| && IsWhitespace(source[offset])
        invariant Valid()
        invariant G.SkipWhitespace(old(Left())) == G.SkipWhitespace(Left())
      {
        Advance(1);
      }
    }

    method ParseValue() returns (result: Result<Json, Fault>)
      requires Valid()
      modifies this
      ensures result == Outcome(ReadValue(old(Left())))
      ensures result.Ok? ==> Valid() && Left() == ReadValue(old(Left())).value.rest
      decreases |source| - offset, 1
    {
      SkipWhitespace();
      if At(OPEN_BRACE) {
        var members :- ParseObject();
        return Ok(Obj(members));
      } else if At(OPEN_BRACKET) {
        var items :- ParseArray();
        return Ok(Arr(items));
      } else if At(QUOTE) {
        var text :- ParseString();
        return Ok(Str(text));
      } else if At(MINUS) || (offset < |source| && IsDigit(source[offset])) {
        var number :- ParseNumber();
        return Ok(Num(number));
      }
      result := ParseLiteral();
    }

    method ParseLiteral() returns (result: Result<Json, Fault>)
      requires Valid()
      modifies this
      ensures result == Outcome(ReadLiteral(old(Left())))
      ensures result.Ok? ==> Valid() && Left() == ReadLiteral(old(Left())).value.rest
    {
      if TRUE <= source[offset..] {
        Advance(|TRUE|);
        return Ok(Bool(true));
      } else if FALSE <= source[offset..] {
        Advance(|FALSE|);
        return Ok(Bool(false));
      } else if NULL <= source[offset..] {
        Advance(|NULL|);
        return Ok(Null);
      }
      return Err(ExpectedValue);
    }

    method ParseObject() returns (result: Result<seq<Member>, Fault>)
      requires Valid() && At(OPEN_BRACE)
      modifies this
      ensures result == Outcome(ReadObject(old(Left())[1..]))
      ensures result.Ok? ==> Valid() && Left() == ReadObject(old(Left())[1..]).value.rest
      decreases |source| - offset, 0
    {
      Advance(1);
      SkipWhitespace();
      if At(CLOSE_BRACE) {
        Advance(1);
        return Ok([]);
      }
      ghost var all := ReadMembers(Left(), {});
      PrependNothing(all);
      var members: seq<Member> := [];
      var keys: set<Text> := {};
      while true
        invariant Valid() && old(offset) < offset
        invariant all == Prepend(members, ReadMembers(Left(), keys))
        decreases |source| - offset
      {
        ghost var before := Left();
        ghost var seen := keys;
        ghost var done := members;
        var member :- ParseObjectProperty(keys);
        keys := keys + {member.key};
        members := members + [member];
        var finished :- FinishObjectProperty();
        if !finished {
          PrependOneMore(done, member, ReadMembers(Left(), keys));
          assert ReadMembers(before, seen) == Prepend([member], ReadMembers(Left(), keys));
        }
        if finished {
          return Ok(members);
        }
      }
    }

    method ParseObjectProperty(keys: set<Text>) returns (result: Result<Member, Fault>)
      requires Valid()
      modifies this
      ensures result == Outcome(ReadMember(old(Left()), keys))
      ensures result.Ok? ==> Valid() && Left() == ReadMember(old(Left()), keys).value.rest
      decreases |source| - offset, 2
    {
      SkipWhitespace();
      if !At(QUOTE) {
        return Err(ExpectedKey);
      }
      var key :- ParseString();
      if key in keys {
        return Err(DuplicateKey);
      }
      SkipWhitespace();
      if !At(COLON) {
        return Err(ExpectedColon);
      }
      Advance(1);
      var value :- ParseValue();
      return Ok(Member(key, value));
    }

    method FinishObjectProperty() returns (result: Result<bool, Fault>)
      requires Valid()
      modifies this
      ensures
        var s := G.SkipWhitespace(old(Left()));
        if Starts(s, CLOSE_BRACE) then result == Ok(true) && Valid() && Left() == s[1..]
        else if Starts(s, COMMA) then result == Ok(false) && Valid() && Left() == s[1..]
        else result == Err(ExpectedCommaOrBrace)
    {
      SkipWhitespace();
      if At(CLOSE_BRACE) {
        Advance(1);
        return Ok(true);
      }
      if !At(COMMA) {
        return Err(ExpectedCommaOrBrace);
      }
      Advance(1);
      return Ok(false);
    }

    method ParseArray() returns (result: Result<seq<Json>, Fault>)
      requires Valid() && At(OPEN_BRACKET)
      modifies this
      ensures result == Outcome(ReadArray(old(Left())[1..]))
      ensures result.Ok? ==> Valid() && Left() == ReadArray(old(Left())[1..]).value.rest
      decreases |source| - offset, 0
    {
      Advance(1);
      SkipWhitespace();
      if At(CLOSE_BRACKET) {
        Advance(1);
        return Ok([]);
      }
      ghost var all := ReadItems(Left());
      PrependNothing(all);
      var items: seq<Json> := [];
      while true
        invariant Valid() && old(offset) < offset
        invariant all == Prepend(items, ReadItems(Left()))
        decreases |source| - offset
      {
        ghost var before := Left();
        ghost var done := items;
        var item :- ParseValue();
        items := items + [item];
        SkipWhitespace();
        if At(CLOSE_BRACKET) {
          Advance(1);
          return Ok(items);
        }
        if !At(COMMA) {
          return Err(ExpectedCommaOrBracket);
        }
        Advance(1);
        PrependOneMore(done, item, ReadItems(Left()));
        assert ReadItems(before) == Prepend([item], ReadItems(Left()));
      }
    }

    method ParseString() returns (result: Result<Text, Fault>)
      requires Valid() && At(QUOTE)
      modifies this
      ensures result == Outcome(ReadString(old(Left())))
      ensures result.Ok? ==> Valid() && Left() == ReadString(old(Left())).value.rest
    {
      var start := offset;
      ghost var s := Left();
      offset := offset + 1;
      while offset < |source|
        invariant start < offset
        invariant LiteralLength(s, 1) == LiteralLength(s, offset - start)
      {
        if source[offset] == QUOTE {
          offset := offset + 1;
          assert source[start..offset] == s[..offset - start] && source[offset..] == s[offset - start..];
          match DecodeString(source[start..offset])
          case None => return Err(InvalidString);
          case Some(text) => return Ok(text);
        }
        if source[offset] == BACKSLASH {
          offset := offset + 1;
        }
        offset := offset + 1;
      }
      return Err(UnterminatedString);
    }

    method ParseNumber() returns (result: Result<Number, Fault>)
      requires Valid()
      modifies this
      ensures result == Outcome(ReadNumber(old(Left())))
      ensures result.Ok? ==> Valid() && Left() == ReadNumber(old(Left())).value.rest
    {
      var negative := At(MINUS);
      if negative {
        Advance(1);
      }
      var t := source[offset..];
      var length := IntegerLength(t);
      if length == 0 {
        return Err(InvalidNumber);
      }
      Advance(length);
      var fraction := FractionDigits(source[offset..]);
      Advance(FractionLength(source[offset..]));
      var exponent := ExponentOf(source[offset..]);
      Advance(ExponentLength(source[offset..]));
      var number := NumberOf(negative, t[..length], fraction, exponent);
      return if InRange(number) then Ok(number) else Err(UnsafeNumber);
    }
  }
}
