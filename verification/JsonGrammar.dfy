/**
 The strict JSON reader of packages/runner/src/execution-plans/execution-plan-json.ts: a
 recursive-descent parser over a mutable offset that refuses repeated member names and
 numbers outside the safe range.

 Each `Read...` function says what one routine does to the text that is left to read.
 */
module JsonGrammar {
  import opened Wrappers
  import opened JsonText

  datatype Fault =
    | TrailingInput
    | ExpectedValue
    | ExpectedKey
    | DuplicateKey
    | ExpectedColon
    | ExpectedCommaOrBrace
    | ExpectedCommaOrBracket
    | UnterminatedString
    | InvalidString
    | InvalidNumber
    | UnsafeNumber    // an unsafe integer, or not finite

  // What is left to read after a successful routine, with its value.
  datatype Read<+T> = Read(value: T, rest: Text)

  predicate IsWhitespace(u: nat) {
    u == 0x20 || u == 0x0A || u == 0x0D || u == 0x09
  }

  function SkipWhitespace(s: Text): (t: Text)
    ensures |t| <= |s|
  {
    if s != [] && IsWhitespace(s[0]) then SkipWhitespace(s[1..]) else s
  }

  predicate Starts(s: Text, u: nat) {
    s != [] && s[0] == u
  }

  // ---------------------------------------------------------------- strings

  /** The length of the string literal at the start of `s`, from offset `i` inside it. */
  function LiteralLength(s: Text, i: nat): (r: Option<nat>)
    ensures r.Some? ==> i < r.value <= |s|
    decreases |s| - i
  {
    if i >= |s| then None
    else if s[i] == QUOTE then Some(i + 1)
    else if s[i] == BACKSLASH then LiteralLength(s, i + 2)
    else LiteralLength(s, i + 1)
  }

  function HexValue(u: nat): Option<nat> {
    if IsDigit(u) then Some(u - 0x30)
    else if 0x61 <= u <= 0x66 then Some(u - 0x57)
    else if 0x41 <= u <= 0x46 then Some(u - 0x37)
    else None
  }

  function SimpleEscape(u: nat): Option<nat> {
    if u == QUOTE || u == BACKSLASH || u == SLASH then Some(u)
    else if u == 0x62 then Some(0x08)
    else if u == 0x66 then Some(0x0C)
    else if u == 0x6E then Some(0x0A)
    else if u == 0x72 then Some(0x0D)
    else if u == 0x74 then Some(0x09)
    else None
  }

  /** One character of a string literal: its code unit and how many units spell it. */
  function DecodeUnit(s: Text): (r: Option<(nat, nat)>)
    ensures r.Some? ==> 0 < r.value.1 <= |s|
  {
    if s == [] || s[0] == QUOTE || s[0] < 0x20 then None
    else if s[0] != BACKSLASH then Some((s[0], 1))
    else if |s| >= 2 && SimpleEscape(s[1]).Some? then Some((SimpleEscape(s[1]).value, 2))
    else if |s| >= 6 && s[1] == LOWER_U && HexValue(s[2]).Some? && HexValue(s[3]).Some?
            && HexValue(s[4]).Some? && HexValue(s[5]).Some? then
      Some((HexValue(s[2]).value * 0x1000 + HexValue(s[3]).value * 0x100
            + HexValue(s[4]).value * 0x10 + HexValue(s[5]).value, 6))
    else None
  }

  /** The characters of a literal up to its closing quote, which must end the text. */
  function DecodeUnits(s: Text): Option<Text> {
    if s == [QUOTE] then Some([])
    else
      match DecodeUnit(s)
      case None => None
      case Some((unit, length)) =>
        match DecodeUnits(s[length..])
        case None => None
        case Some(units) => Some([unit] + units)
  }

  /** JSON.parse on a text that starts with a quote. */
  function DecodeString(literal: Text): Option<Text>
    requires Starts(literal, QUOTE)
  {
    DecodeUnits(literal[1..])
  }

  function ReadString(s: Text): (r: Result<Read<Text>, Fault>)
    requires Starts(s, QUOTE)
    ensures r.Ok? ==> |r.value.rest| < |s|
  {
    match LiteralLength(s, 1)
    case None => Err(UnterminatedString)
    case Some(length) =>
      match DecodeString(s[..length])
      case None => Err(InvalidString)
      case Some(text) => Ok(Read(text, s[length..]))
  }

  // ---------------------------------------------------------------- numbers

  function DigitRun(s: Text): (n: nat)
    ensures n <= |s| && forall i :: 0 <= i < n ==> IsDigit(s[i])
  {
    if s != [] && IsDigit(s[0]) then 1 + DigitRun(s[1..]) else 0
  }

  /** The length of an optional fraction. */
  function FractionLength(s: Text): (n: nat)
    ensures n <= |s| && n != 1 && (n > 1 ==> AllDigits(s[1..n]))
  {
    if Starts(s, DOT) && DigitRun(s[1..]) > 0 then 1 + DigitRun(s[1..]) else 0
  }

  /** The length of an optional exponent. */
  function ExponentLength(s: Text): (n: nat)
    ensures n <= |s|
  {
    if !Starts(s, LOWER_E) && !Starts(s, UPPER_E) then 0
    else
      var head := ExponentHead(s);
      if DigitRun(s[head..]) > 0 then head + DigitRun(s[head..]) else 0
  }

  /** The length of an exponent before its digits. */
  function ExponentHead(s: Text): (n: nat)
    requires s != []
    ensures n <= |s|
  {
    if Starts(s[1..], PLUS) || Starts(s[1..], MINUS) then 2 else 1
  }

  /** The value of an optional exponent. */
  function ExponentOf(s: Text): int {
    if ExponentLength(s) == 0 then 0
    else
      var digits := s[ExponentHead(s)..];
      var value: int := NatValue(digits[..DigitRun(digits)]);
      if Starts(s[1..], MINUS) then -value else value
  }

  function IntegerLength(s: Text): (n: nat)
    ensures n <= |s| && forall i :: 0 <= i < n ==> IsDigit(s[i])
  {
    if Starts(s, 0x30) then 1 else DigitRun(s)
  }

  /** m * 10^-places. */
  function Normal(m: nat, places: int): (x: Number)
    ensures IsNormal(x)
    decreases if places > 0 then places else 0
  {
    if places <= 0 then Whole(m * Pow10(-places))
    else if m == 0 then Whole(0)
    else if m % 10 == 0 then Normal(m / 10, places - 1)
    else Decimal(m, places)
  }

  function Negative(x: Number): Number {
    match x
    case Whole(n) => Whole(-n)
    case Decimal(m, places) => Decimal(-m, places)
  }

  /** The number of the digits before and after the point and of an exponent. */
  function NumberOf(negative: bool, whole: Text, fraction: Text, exponent: int): (x: Number)
    requires AllDigits(whole) && AllDigits(fraction)
    ensures IsNormal(x)
  {
    var x := Normal(NatValue(whole + fraction), |fraction| - exponent);
    if negative then Negative(x) else x
  }

  function ReadNumber(s: Text): (r: Result<Read<Number>, Fault>)
    ensures r.Ok? ==> |r.value.rest| < |s| && ValidNumber(r.value.value)
  {
    if Starts(s, MINUS) then ReadUnsigned(s[1..], true) else ReadUnsigned(s, false)
  }

  function ReadUnsigned(t: Text, negative: bool): (r: Result<Read<Number>, Fault>)
    ensures r.Ok? ==> |r.value.rest| < |t| && ValidNumber(r.value.value)
  {
    var n := IntegerLength(t);
    if n == 0 then Err(InvalidNumber)
    else
      var afterWhole := t[n..];
      var afterFraction := afterWhole[FractionLength(afterWhole)..];
      var number := NumberOf(negative, t[..n], FractionDigits(afterWhole), ExponentOf(afterFraction));
      if !InRange(number) then Err(UnsafeNumber)
      else Ok(Read(number, afterFraction[ExponentLength(afterFraction)..]))
  }

  /** The digits of an optional fraction. */
  function FractionDigits(s: Text): (digits: Text)
    ensures AllDigits(digits)
  {
    if FractionLength(s) == 0 then [] else s[1..FractionLength(s)]
  }

  // ---------------------------------------------------------------- values

  function ReadLiteral(s: Text): (r: Result<Read<Json>, Fault>)
    ensures r.Ok? ==> |r.value.rest| < |s| && WellFormed(r.value.value)
  {
    if TRUE <= s then Ok(Read(Bool(true), s[|TRUE|..]))
    else if FALSE <= s then Ok(Read(Bool(false), s[|FALSE|..]))
    else if NULL <= s then Ok(Read(Null, s[|NULL|..]))
    else Err(ExpectedValue)
  }

  function ReadValue(text: Text): (r: Result<Read<Json>, Fault>)
    ensures r.Ok? ==> |r.value.rest| < |text|
    decreases |text|, 1
  {
    var s := SkipWhitespace(text);
    if Starts(s, OPEN_BRACE) then
      var r :- ReadObject(s[1..]);
      Ok(Read(Obj(r.value), r.rest))
    else if Starts(s, OPEN_BRACKET) then
      var r :- ReadArray(s[1..]);
      Ok(Read(Arr(r.value), r.rest))
    else if Starts(s, QUOTE) then
      var r :- ReadString(s);
      Ok(Read(Str(r.value), r.rest))
    else if Starts(s, MINUS) || (s != [] && IsDigit(s[0])) then
      var r :- ReadNumber(s);
      Ok(Read(Num(r.value), r.rest))
    else ReadLiteral(s)
  }

  function ReadArray(s: Text): (r: Result<Read<seq<Json>>, Fault>)
    ensures r.Ok? ==> |r.value.rest| < |s|
    decreases |s|, 4
  {
    var t := SkipWhitespace(s);
    if Starts(t, CLOSE_BRACKET) then Ok(Read([], t[1..])) else ReadItems(t)
  }

  function ReadItems(s: Text): (r: Result<Read<seq<Json>>, Fault>)
    ensures r.Ok? ==> |r.value.rest| < |s|
    decreases |s|, 2
  {
    var first :- ReadValue(s);
    var t := SkipWhitespace(first.rest);
    if Starts(t, CLOSE_BRACKET) then Ok(Read([first.value], t[1..]))
    else if !Starts(t, COMMA) then Err(ExpectedCommaOrBracket)
    else
      var more :- ReadItems(t[1..]);
      Ok(Read([first.value] + more.value, more.rest))
  }

  function ReadObject(s: Text): (r: Result<Read<seq<Member>>, Fault>)
    ensures r.Ok? ==> |r.value.rest| < |s|
    decreases |s|, 4
  {
    var t := SkipWhitespace(s);
    if Starts(t, CLOSE_BRACE) then Ok(Read([], t[1..])) else ReadMembers(t, {})
  }

  function ReadMember(text: Text, seen: set<Text>): (r: Result<Read<Member>, Fault>)
    ensures r.Ok? ==> |r.value.rest| < |text|
    decreases |text|, 2
  {
    var s := SkipWhitespace(text);
    if !Starts(s, QUOTE) then Err(ExpectedKey)
    else
      var key :- ReadString(s);
      if key.value in seen then Err(DuplicateKey)
      else
        var t := SkipWhitespace(key.rest);
        if !Starts(t, COLON) then Err(ExpectedColon)
        else
          var value :- ReadValue(t[1..]);
          Ok(Read(Member(key.value, value.value), value.rest))
  }

  function ReadMembers(s: Text, seen: set<Text>): (r: Result<Read<seq<Member>>, Fault>)
    ensures r.Ok? ==> |r.value.rest| < |s|
    decreases |s|, 3
  {
    var first :- ReadMember(s, seen);
    var t := SkipWhitespace(first.rest);
    if Starts(t, CLOSE_BRACE) then Ok(Read([first.value], t[1..]))
    else if !Starts(t, COMMA) then Err(ExpectedCommaOrBrace)
    else
      var more :- ReadMembers(t[1..], seen + {first.value.key});
      Ok(Read([first.value] + more.value, more.rest))
  }

  /** parseUniqueKeyJson: one value and nothing after it but whitespace. */
  function Parse(source: Text): Result<Json, Fault> {
    var r :- ReadValue(source);
    if SkipWhitespace(r.rest) != [] then Err(TrailingInput) else Ok(r.value)
  }
}
