/**
 The JSON values of packages/runner/src/execution-plans/execution-plan-json.ts, and how
 JSON.stringify writes them (RFC 8259 sections 2 to 7).

 Text is a sequence of UTF-16 code units, so that unpaired surrogates are covered.
 Numbers are exact decimals: how a decimal is rounded to a double is not modelled.
 */
module JsonText {

  type Text = seq<nat>

  const QUOTE: nat := 0x22
  const BACKSLASH: nat := 0x5C
  const SLASH: nat := 0x2F
  const COMMA: nat := 0x2C
  const COLON: nat := 0x3A
  const MINUS: nat := 0x2D
  const PLUS: nat := 0x2B
  const DOT: nat := 0x2E
  const OPEN_BRACE: nat := 0x7B
  const CLOSE_BRACE: nat := 0x7D
  const OPEN_BRACKET: nat := 0x5B
  const CLOSE_BRACKET: nat := 0x5D
  const NEWLINE: nat := 0x0A
  const LOWER_U: nat := 0x75
  const LOWER_E: nat := 0x65
  const UPPER_E: nat := 0x45
  const ZERO: nat := 0x30

  const TRUE: Text := [0x74, 0x72, 0x75, 0x65]
  const FALSE: Text := [0x66, 0x61, 0x6C, 0x73, 0x65]
  const NULL: Text := [0x6E, 0x75, 0x6C, 0x6C]

  const MAX_SAFE_INTEGER: nat := 0x1F_FFFF_FFFF_FFFF

  // An integer, or the decimal m * 10^-places that is none.
  datatype Number = Whole(n: int) | Decimal(m: int, places: nat)

  datatype Json =
    | Null
    | Bool(b: bool)
    | Num(x: Number)
    | Str(s: Text)
    | Arr(items: seq<Json>)
    | Obj(members: seq<Member>)

  datatype Member = Member(key: Text, value: Json)

  predicate UniqueKeys(members: seq<Member>) {
    forall i, j :: 0 <= i < j < |members| ==> members[i].key != members[j].key
  }

  function Abs(n: int): nat {
    if n < 0 then -n else n
  }

  function Pow10(n: nat): nat {
    if n == 0 then 1 else 10 * Pow10(n - 1)
  }

  /** The number is not larger than the safe integers; beyond them doubles are unsafe integers, or infinite. */
  predicate InRange(x: Number) {
    match x
    case Whole(n) => Abs(n) <= MAX_SAFE_INTEGER
    case Decimal(m, places) => Abs(m) <= MAX_SAFE_INTEGER * Pow10(places)
  }

  /** A decimal has a fraction, and no zero at its end. */
  predicate IsNormal(x: Number) {
    x.Decimal? ==> x.places > 0 && x.m % 10 != 0
  }

  predicate ValidNumber(x: Number) {
    IsNormal(x) && InRange(x)
  }

  /** What a value of the program is: no object repeats a key, and integers are safe. */
  predicate WellFormed(v: Json) {
    match v
    case Null => true
    case Bool(_) => true
    case Num(x) => ValidNumber(x)
    case Str(_) => true
    case Arr(items) => forall x | x in items :: WellFormed(x)
    case Obj(members) => UniqueKeys(members) && forall m | m in members :: WellFormed(m.value)
  }

  // ---------------------------------------------------------------- numbers

  predicate IsDigit(u: nat) {
    0x30 <= u <= 0x39
  }

  function WriteNat(n: nat): (t: Text)
    ensures t != [] && forall i :: 0 <= i < |t| ==> IsDigit(t[i])
    ensures t[0] == 0x30 ==> n == 0 && |t| == 1
  {
    if n < 10 then [0x30 + n] else WriteNat(n / 10) + [0x30 + n % 10]
  }

  function WriteInt(n: int): Text {
    if n < 0 then [MINUS] + WriteNat(-n) else WriteNat(n)
  }

  predicate AllDigits(t: Text) {
    forall i :: 0 <= i < |t| ==> IsDigit(t[i])
  }

  function Zeros(n: nat): Text {
    seq(n, _ => ZERO)
  }

  /**
   Number::toString of section 6.1.6.1.20 of ECMA-262, for m * 10^-places with a fraction and below
   10^21: with a point among the digits, before them, or with an exponent.
   */
  function WriteDecimal(m: nat, places: nat): Text {
    var digits := WriteNat(m);
    var n := |digits| - places;
    if n > 0 then digits[..n] + ([DOT] + digits[n..])
    else if n > -6 then [ZERO] + ([DOT] + (Zeros(-n) + digits))
    else digits[..1] + ((if |digits| == 1 then [] else [DOT] + digits[1..]) + ([LOWER_E, MINUS] + WriteNat(1 - n)))
  }

  function WriteNumber(x: Number): Text {
    match x
    case Whole(n) => WriteInt(n)
    case Decimal(m, places) => (if m < 0 then [MINUS] else []) + WriteDecimal(Abs(m), places)
  }

  function NatValue(digits: Text): nat
    requires forall i :: 0 <= i < |digits| ==> IsDigit(digits[i])
  {
    if digits == [] then 0
    else
      var last := digits[|digits| - 1];
      assert IsDigit(last);
      NatValue(digits[..|digits| - 1]) * 10 + (last - 0x30)
  }

  lemma {:induction false} WrittenNatValue(n: nat)
    ensures NatValue(WriteNat(n)) == n
  {
    if n < 10 {
      assert WriteNat(n)[..0] == [];
    } else {
      WrittenNatValue(n / 10);
      assert WriteNat(n)[..|WriteNat(n)| - 1] == WriteNat(n / 10);
    }
  }

  // ---------------------------------------------------------------- strings

  predicate IsHighSurrogate(u: nat) {
    0xD800 <= u <= 0xDBFF
  }

  predicate IsLowSurrogate(u: nat) {
    0xDC00 <= u <= 0xDFFF
  }

  predicate StartsWithPair(s: Text) {
    |s| >= 2 && IsHighSurrogate(s[0]) && IsLowSurrogate(s[1])
  }

  function HexDigit(n: nat): nat
    requires n < 16
  {
    if n < 10 then 0x30 + n else 0x57 + n
  }

  function HexEscape(u: nat): Text
    requires u < 0x10000
  {
    [BACKSLASH, LOWER_U, HexDigit(u / 0x1000), HexDigit(u / 0x100 % 16), HexDigit(u / 0x10 % 16), HexDigit(u % 16)]
  }

  /** One code unit that is not part of a surrogate pair, as JSON.stringify writes it. */
  function WriteUnit(u: nat): Text {
    if u == QUOTE then [BACKSLASH, QUOTE]
    else if u == BACKSLASH then [BACKSLASH, BACKSLASH]
    else if u == 0x08 then [BACKSLASH, 0x62]
    else if u == 0x09 then [BACKSLASH, 0x74]
    else if u == 0x0A then [BACKSLASH, 0x6E]
    else if u == 0x0C then [BACKSLASH, 0x66]
    else if u == 0x0D then [BACKSLASH, 0x72]
    else if u < 0x20 || IsHighSurrogate(u) || IsLowSurrogate(u) then HexEscape(u)
    else [u]
  }

  function WriteUnits(s: Text): Text {
    if s == [] then []
    else if StartsWithPair(s) then s[..2] + WriteUnits(s[2..])
    else WriteUnit(s[0]) + WriteUnits(s[1..])
  }

  function WriteString(s: Text): Text {
    [QUOTE] + WriteUnits(s) + [QUOTE]
  }

  // ---------------------------------------------------------------- values

  /** JSON.stringify, for members in enumeration order. */
  function Stringify(v: Json): Text
    decreases v
  {
    match v
    case Null => NULL
    case Bool(b) => if b then TRUE else FALSE
    case Num(x) => WriteNumber(x)
    case Str(s) => WriteString(s)
    case Arr(items) => [OPEN_BRACKET] + StringifyItems(items) + [CLOSE_BRACKET]
    case Obj(members) => [OPEN_BRACE] + StringifyMembers(members) + [CLOSE_BRACE]
  }

  function StringifyItems(items: seq<Json>): Text
    decreases items
  {
    if items == [] then []
    else if |items| == 1 then Stringify(items[0])
    else Stringify(items[0]) + [COMMA] + StringifyItems(items[1..])
  }

  function StringifyMember(m: Member): Text
    decreases m
  {
    WriteString(m.key) + [COLON] + Stringify(m.value)
  }

  function StringifyMembers(members: seq<Member>): Text
    decreases members
  {
    if members == [] then []
    else if |members| == 1 then StringifyMember(members[0])
    else StringifyMember(members[0]) + [COMMA] + StringifyMembers(members[1..])
  }
}
