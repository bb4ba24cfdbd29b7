/**
 The texts that spell a JSON value (RFC 8259 sections 2 to 7, with unique member names as in section
 2.3 of RFC 7493), whoever wrote them: with white space, any escapes, and any form of a number.  The
 parser of packages/runner/src/execution-plans/execution-plan-json.ts accepts exactly these.
 */
module JsonSpelling {
  import opened Wrappers
  import opened JsonText
  import opened JsonGrammar
  import opened JsonRoundTrip

  // ---------------------------------------------------------------- strings

  /** What a backslash and one character stand for. */
  predicate EscapeMeans(c: nat, u: nat) {
    || (c == 0x22 && u == 0x22) || (c == 0x5C && u == 0x5C) || (c == 0x2F && u == 0x2F) || (c == 0x62 && u == 0x08)
    || (c == 0x66 && u == 0x0C) || (c == 0x6E && u == 0x0A) || (c == 0x72 && u == 0x0D) || (c == 0x74 && u == 0x09)
  }

  predicate HexMeans(c: nat, n: nat) {
    || (n < 10 && c == 0x30 + n) || (10 <= n < 16 && c == 0x41 + (n - 10)) || (10 <= n < 16 && c == 0x61 + (n - 10))
  }

  ghost predicate HexSpells(w: Text, u: nat)
    requires |w| == 4
  {
    exists a: nat, b: nat, c: nat, d: nat ::
      && HexMeans(w[0], a) && HexMeans(w[1], b) && HexMeans(w[2], c) && HexMeans(w[3], d)
      && u == a * 4096 + b * 256 + c * 16 + d
  }

  /** One code unit of a string: itself, or behind a backslash. */
  ghost predicate UnitSpells(w: Text, u: nat) {
    || (w == [u] && u >= 0x20 && u != 0x22 && u != 0x5C)
    || (|w| == 2 && w[0] == 0x5C && EscapeMeans(w[1], u))
    || (|w| == 6 && w[0] == 0x5C && w[1] == 0x75 && HexSpells(w[2..], u))
  }

  ghost predicate UnitsSpell(w: Text, s: Text) {
    if s == [] then w == []
    else exists n: nat :: n <= |w| && UnitSpells(w[..n], s[0]) && UnitsSpell(w[n..], s[1..])
  }

  ghost predicate StringSpells(w: Text, s: Text) {
    |w| >= 2 && w[0] == 0x22 && w[|w| - 1] == 0x22 && UnitsSpell(w[1..|w| - 1], s)
  }

  lemma HexExactly(c: nat, n: nat)
    ensures HexValue(c) == Some(n) <==> HexMeans(c, n)
  {
  }

  lemma EscapeExactly(c: nat, u: nat)
    ensures SimpleEscape(c) == Some(u) <==> EscapeMeans(c, u)
  {
  }

  lemma HexUnit(w: Text, u: nat)
    requires |w| == 4
    ensures HexSpells(w, u)
       <==> && HexValue(w[0]).Some? && HexValue(w[1]).Some? && HexValue(w[2]).Some? && HexValue(w[3]).Some?
            && u == HexValue(w[0]).value * 0x1000 + HexValue(w[1]).value * 0x100 + HexValue(w[2]).value * 0x10
                    + HexValue(w[3]).value
  {
    forall c: nat, n: nat ensures HexValue(c) == Some(n) <==> HexMeans(c, n) {
      HexExactly(c, n);
    }
    hide HexValue, HexMeans;
    if HexValue(w[0]).Some? && HexValue(w[1]).Some? && HexValue(w[2]).Some? && HexValue(w[3]).Some? {
      assert HexMeans(w[0], HexValue(w[0]).value) && HexMeans(w[1], HexValue(w[1]).value);
      assert HexMeans(w[2], HexValue(w[2]).value) && HexMeans(w[3], HexValue(w[3]).value);
    }
  }

  /** The reader takes one spelled unit off the front, and nothing else. */
  lemma DecodeUnitExactly(t: Text, n: nat, u: nat)
    requires n <= |t|
    ensures DecodeUnit(t) == Some((u, n)) ==> UnitSpells(t[..n], u)
    ensures UnitSpells(t[..n], u) ==> DecodeUnit(t) == Some((u, n))
  {
    if |t| >= 2 {
      EscapeExactly(t[1], u);
    }
    if |t| >= 6 {
      var w := t[2..6];
      HexUnit(w, u);
      assert n == 6 ==> t[..6][2..] == w;
      assert w[0] == t[2] && w[1] == t[3] && w[2] == t[4] && w[3] == t[5];
    }
    hide HexValue, SimpleEscape, EscapeMeans, HexSpells;
    assert n >= 1 ==> t[..n][0] == t[0];
    assert n >= 2 ==> t[..n][1] == t[1];
  }

  lemma {:induction false} DecodedIsSpelled(t: Text, s: Text)
    requires DecodeUnits(t) == Some(s)
    ensures t != [] && t[|t| - 1] == QUOTE && UnitsSpell(t[..|t| - 1], s)
    decreases |t|
  {
    if t == [QUOTE] {
      assert t[..0] == [];
    } else {
      var u, n := DecodeUnit(t).value.0, DecodeUnit(t).value.1;
      var w := t[..|t| - 1];
      DecodedIsSpelled(t[n..], s[1..]);
      DecodeUnitExactly(t, n, u);
      assert w[..n] == t[..n] && w[n..] == t[n..][..|t| - n - 1];
      hide UnitSpells;
    }
  }

  lemma {:induction false} SpelledIsDecoded(w: Text, s: Text)
    requires UnitsSpell(w, s)
    ensures DecodeUnits(w + [QUOTE]) == Some(s)
    decreases |s|
  {
    var t := w + [QUOTE];
    if s != [] {
      var n: nat :| n <= |w| && UnitSpells(w[..n], s[0]) && UnitsSpell(w[n..], s[1..]);
      assert t[..n] == w[..n] && t[n..] == w[n..] + [QUOTE];
      DecodeUnitExactly(t, n, s[0]);
      SpelledIsDecoded(w[n..], s[1..]);
      assert s == [s[0]] + s[1..];
      hide UnitSpells;
    }
  }

  lemma ScanUnit(t: Text, i: nat, w: Text, u: nat)
    requires UnitSpells(w, u) && i + |w| <= |t| && t[i..i + |w|] == w
    ensures LiteralLength(t, i) == LiteralLength(t, i + |w|)
  {
    assert forall k :: 0 <= k < |w| ==> t[i + k] == w[k];
    if |w| == 6 {
      assert w[2..][0] == w[2] && w[2..][1] == w[3] && w[2..][2] == w[4] && w[2..][3] == w[5];
      hide HexSpells;
      NoQuoteInHex(w[2..], u);
      assert LiteralLength(t, i) == LiteralLength(t, i + 2);
      assert LiteralLength(t, i + 2) == LiteralLength(t, i + 3);
      assert LiteralLength(t, i + 3) == LiteralLength(t, i + 4);
      assert LiteralLength(t, i + 4) == LiteralLength(t, i + 5);
    }
  }

  lemma NoQuoteInHex(w: Text, u: nat)
    requires |w| == 4 && HexSpells(w, u)
    ensures forall k :: 0 <= k < 4 ==> w[k] != QUOTE && w[k] != BACKSLASH
  {
  }

  lemma TakeUnit(t: Text, i: nat, n: nat, w: Text, rest: Text)
    requires i <= |t| && t[i..] == w + rest && n <= |w|
    ensures i + n <= |t| && t[i..i + n] == w[..n] && t[i + n..] == w[n..] + rest
  {
    assert |t[i..]| == |w| + |rest|;
    assert t[i..i + n] == t[i..][..n] && t[i + n..] == t[i..][n..];
    assert (w + rest)[..n] == w[..n] && (w + rest)[n..] == w[n..] + rest;
  }

  lemma ScanEnd(t: Text, i: nat, rest: Text)
    requires i <= |t| && t[i..] == [QUOTE] + rest
    ensures LiteralLength(t, i) == Some(i + 1)
  {
    assert t[i] == t[i..][0] == QUOTE;
  }

  lemma {:induction false} ScanUnits(t: Text, i: nat, w: Text, s: Text, rest: Text)
    requires i <= |t| && t[i..] == w + ([QUOTE] + rest) && UnitsSpell(w, s)
    ensures LiteralLength(t, i) == Some(i + |w| + 1)
    decreases |s|
  {
    hide UnitSpells, LiteralLength;
    if s == [] {
      assert w == [] && w + ([QUOTE] + rest) == [QUOTE] + rest;
      ScanEnd(t, i, rest);
    } else {
      var n: nat :| n <= |w| && UnitSpells(w[..n], s[0]) && UnitsSpell(w[n..], s[1..]);
      hide UnitsSpell;
      TakeUnit(t, i, n, w, [QUOTE] + rest);
      ScanUnit(t, i, w[..n], s[0]);
      ScanUnits(t, i + n, w[n..], s[1..], rest);
    }
  }

  /** A spelled string is read, whatever follows it. */
  lemma SpelledStringIsRead(w: Text, s: Text, rest: Text)
    requires StringSpells(w, s)
    ensures Starts(w + rest, QUOTE) && ReadString(w + rest) == Ok(Read(s, rest))
  {
    var t, inside := w + rest, w[1..|w| - 1];
    assert w == [QUOTE] + (inside + [QUOTE]);
    assert t[1..] == inside + ([QUOTE] + rest);
    ScanUnits(t, 1, inside, s, rest);
    SpelledIsDecoded(inside, s);
    assert t[..|w|] == w && t[|w|..] == rest && w[1..] == inside + [QUOTE];
    hide UnitsSpell, DecodeUnits, LiteralLength;
  }

  /** What is read of a string is a spelling of it. */
  lemma ReadStringIsSpelled(t: Text, s: Text, rest: Text) returns (w: Text)
    requires Starts(t, QUOTE) && ReadString(t) == Ok(Read(s, rest))
    ensures t == w + rest && StringSpells(w, s)
  {
    w := t[..LiteralLength(t, 1).value];
    hide DecodeUnits, LiteralLength, UnitsSpell;
    DecodedIsSpelled(w[1..], s);
    assert w[1..][..|w[1..]| - 1] == w[1..|w| - 1];
  }

  // ---------------------------------------------------------------- numbers

  /** The value of decimal digits, most significant first. */
  function DigitsValue(digits: Text): nat
    requires AllDigits(digits)
  {
    if digits == [] then 0
    else
      assert IsDigit(digits[0]);
      (digits[0] - 0x30) * Pow10(|digits| - 1) + DigitsValue(digits[1..])
  }

  lemma {:induction false} DigitsAddUpAlike(digits: Text)
    requires AllDigits(digits)
    ensures NatValue(digits) == DigitsValue(digits)
    decreases |digits|
  {
    if digits != [] {
      DigitsAddUpAlike(digits[1..]);
      FirstDigitCounts(digits);
    }
  }

  lemma LastDigitCounts(digits: Text)
    requires AllDigits(digits) && digits != []
    ensures var n := |digits| - 1;
      IsDigit(digits[n]) && NatValue(digits) == NatValue(digits[..n]) * 10 + (digits[n] - 0x30)
  {
    assert IsDigit(digits[|digits| - 1]);
  }

  lemma ShiftedDigit(d: nat, p: nat, rest: nat)
    ensures (d * p + rest) * 10 == d * (10 * p) + rest * 10
  {
  }

  lemma {:induction false} FirstDigitCounts(digits: Text)
    requires AllDigits(digits) && digits != []
    ensures IsDigit(digits[0])
    ensures NatValue(digits) == (digits[0] - 0x30) * Pow10(|digits| - 1) + NatValue(digits[1..])
    decreases |digits|
  {
    assert IsDigit(digits[0]);
    var n := |digits| - 1;
    LastDigitCounts(digits);
    if n == 0 {
      assert digits[..0] == [];
    } else {
      var before, after := digits[..n], digits[1..];
      FirstDigitCounts(before);
      LastDigitCounts(after);
      assert before[1..] == after[..n - 1] && after[n - 1] == digits[n] && before[0] == digits[0];
      assert Pow10(n) == 10 * Pow10(n - 1);
      hide Pow10, NatValue, AllDigits;
      ShiftedDigit(digits[0] - 0x30, Pow10(n - 1), NatValue(before[1..]));
    }
  }

  /** x is m * 10^-places, or its negative, in the one normal form. */
  predicate IsValue(x: Number, negative: bool, m: nat, places: int) {
    match x
    case Whole(n) =>
      && (if negative then n <= 0 else n >= 0)
      && if places <= 0 then Abs(n) == m * Pow10(-places) else Abs(n) * Pow10(places) == m
    case Decimal(d, p) =>
      && (if negative then d < 0 else d > 0)
      && p > 0 && d % 10 != 0 && p <= places && Abs(d) * Pow10(places - p) == m
  }

  predicate IsSign(w: Text, negative: bool) {
    w == if negative then [0x2D] else []
  }

  predicate IsWhole(w: Text) {
    w != [] && AllDigits(w) && (w[0] == 0x30 ==> |w| == 1)
  }

  predicate IsFraction(w: Text, digits: Text) {
    AllDigits(digits) && if digits == [] then w == [] else w == [0x2E] + digits
  }

  /** An optional exponent: `e` or `E`, an optional sign, and digits. */
  ghost predicate IsExponent(w: Text, value: int) {
    if w == [] then value == 0
    else
      && (w[0] == 0x65 || w[0] == 0x45)
      && exists sign: Text, digits: Text ::
           && w[1..] == sign + digits && (sign == [] || sign == [0x2B] || sign == [0x2D])
           && digits != [] && AllDigits(digits)
           && value == if sign == [0x2D] then 0 - DigitsValue(digits) else DigitsValue(digits)
  }

  datatype NumberParts = NumberParts(
    negative: bool, sign: Text, whole: Text, fraction: Text, digits: Text, exponent: Text, power: int)

  ghost predicate PartsSpell(p: NumberParts, w: Text, x: Number) {
    && w == p.sign + (p.whole + (p.fraction + p.exponent))
    && IsSign(p.sign, p.negative) && IsWhole(p.whole) && IsFraction(p.fraction, p.digits)
    && IsExponent(p.exponent, p.power)
    && IsValue(x, p.negative, DigitsValue(p.whole + p.digits), |p.digits| - p.power)
  }

  /** A sign, digits without leading zeros, a fraction and an exponent, of this value. */
  ghost predicate NumberSpells(w: Text, x: Number) {
    exists p :: PartsSpell(p, w, x)
  }

  lemma ZeroProduct(a: int, p: nat)
    requires a * p == 0 && p > 0
    ensures a == 0
  {
  }

  lemma CancelBy(a: nat, b: nat, p: nat)
    requires a * p == b * p && p > 0
    ensures a == b
  {
    assert (a - b) * p == a * p - b * p;
    ZeroProduct(a - b, p);
  }

  lemma {:induction false} PowIsPositive(k: nat)
    ensures Pow10(k) > 0
  {
    if k > 0 {
      PowIsPositive(k - 1);
    }
  }

  lemma TensFirst(p: int, q: int)
    ensures (10 * p) * q == 10 * (p * q)
  {
  }

  lemma {:induction false} PowSum(j: nat, k: nat)
    ensures Pow10(j + k) == Pow10(j) * Pow10(k)
  {
    if j > 0 {
      PowSum(j - 1, k);
      assert Pow10(j) == 10 * Pow10(j - 1) && Pow10(j + k) == 10 * Pow10(j - 1 + k);
      hide Pow10;
      TensFirst(Pow10(j - 1), Pow10(k));
    }
  }

  lemma TenIsFactor(d: nat, more: nat, p: nat, e: nat)
    requires d * ((10 * more) * p) == e * p && p > 0
    ensures e == 10 * (d * more)
  {
    assert (10 * (d * more)) * p == d * ((10 * more) * p);
    CancelBy(10 * (d * more), e, p);
  }

  /** d * 10^j == e * 10^k with j > k makes e a multiple of ten. */
  lemma MultipleOfTen(d: nat, j: nat, e: nat, k: nat)
    requires j > k && d * Pow10(j) == e * Pow10(k)
    ensures e % 10 == 0
  {
    PowSum(j - k, k);
    PowIsPositive(k);
    assert Pow10(j - k) == 10 * Pow10(j - k - 1);
    hide Pow10;
    TenIsFactor(d, Pow10(j - k - 1), Pow10(k), e);
  }

  lemma TensOfAbs(d: int)
    ensures d % 10 == 0 <==> Abs(d) % 10 == 0
  {
  }

  /** A value has one normal form. */
  lemma OneNormalForm(x: Number, y: Number, negative: bool, m: nat, places: int)
    requires IsValue(x, negative, m, places) && IsValue(y, negative, m, places)
    ensures x == y
  {
    match (x, y)
    case (Whole(i), Whole(j)) =>
      if places > 0 {
        PowIsPositive(places);
        CancelBy(Abs(i), Abs(j), Pow10(places));
      }
    case (Whole(i), Decimal(d, p)) => WholeIsNoDecimal(i, d, p, m, places);
    case (Decimal(d, p), Whole(i)) => WholeIsNoDecimal(i, d, p, m, places);
    case (Decimal(d, p), Decimal(e, q)) =>
      TensOfAbs(d);
      TensOfAbs(e);
      if p < q {
        MultipleOfTen(Abs(d), places - p, Abs(e), places - q);
      } else if q < p {
        MultipleOfTen(Abs(e), places - q, Abs(d), places - p);
      } else {
        PowIsPositive(places - p);
        CancelBy(Abs(d), Abs(e), Pow10(places - p));
      }
  }

  lemma WholeIsNoDecimal(i: int, d: int, p: nat, m: nat, places: int)
    requires 0 < p <= places && Abs(i) * Pow10(places) == m && Abs(d) * Pow10(places - p) == m
    ensures d % 10 == 0
  {
    MultipleOfTen(Abs(i), places, Abs(d), places - p);
    TensOfAbs(d);
  }

  lemma NormalIsValue(m: nat, places: int, negative: bool)
    ensures
      var x := Normal(m, places);
      IsValue(if negative then Negative(x) else x, negative, m, places)
  {
    NormalIsExact(m, places);
    var x := Normal(m, places);
    if x.Decimal? {
      TensOfAbs(x.m);
      TensOfAbs(-x.m);
    }
    hide Normal, Pow10;
  }

  lemma NumberOfIsValue(negative: bool, whole: Text, digits: Text, power: int)
    requires AllDigits(whole) && AllDigits(digits)
    ensures AllDigits(whole + digits)
    ensures IsValue(NumberOf(negative, whole, digits, power), negative, DigitsValue(whole + digits), |digits| - power)
  {
    DigitsAddUpAlike(whole + digits);
    hide NatValue, DigitsValue, Normal, Negative, IsValue;
    NormalIsValue(NatValue(whole + digits), |digits| - power, negative);
  }

  // ---------------------------------------------------------------- reading numbers

  lemma {:induction false} RunEnds(s: Text)
    ensures DigitRun(s) < |s| ==> !IsDigit(s[DigitRun(s)])
  {
    if s != [] && IsDigit(s[0]) {
      RunEnds(s[1..]);
    }
  }

  lemma ReadExponentIsSpelled(s: Text)
    ensures IsExponent(s[..ExponentLength(s)], ExponentOf(s))
  {
    var n := ExponentLength(s);
    if n > 0 {
      var head := ExponentHead(s);
      var digits := s[head..][..n - head];
      var sign := s[1..head];
      var w := s[..n];
      assert w[0] == s[0] && w[1..] == sign + digits;
      assert head == 2 ==> sign == [s[1]] && s[1..][0] == s[1];
      DigitsAddUpAlike(digits);
      assert digits == s[head..][..DigitRun(s[head..])];
    }
  }

  lemma ReadWholeIsSpelled(u: Text)
    requires IntegerLength(u) > 0
    ensures IsWhole(u[..IntegerLength(u)])
  {
    var n := IntegerLength(u);
    assert u[..n][0] == u[0];
  }

  lemma ReadFractionIsSpelled(s: Text)
    ensures IsFraction(s[..FractionLength(s)], FractionDigits(s))
  {
    var n := FractionLength(s);
    if n > 0 {
      assert s[..n] == [DOT] + s[1..n];
    }
  }

  lemma TakenApart(u: Text, n: nat, f: nat, e: nat)
    requires n + f + e <= |u|
    ensures
      var after := u[n..];
      var behind := after[f..];
      u == u[..n] + (after[..f] + (behind[..e] + behind[e..]))
  {
    var after := u[n..];
    var behind := after[f..];
    assert behind[..e] + behind[e..] == behind;
    assert after[..f] + behind == after;
    assert u[..n] + after == u;
  }

  /** Where the parts of an unsigned number start. */
  function AfterWhole(u: Text): Text {
    u[IntegerLength(u)..]
  }

  function AfterFraction(u: Text): Text {
    AfterWhole(u)[FractionLength(AfterWhole(u))..]
  }

  function AfterExponent(u: Text): Text {
    AfterFraction(u)[ExponentLength(AfterFraction(u))..]
  }

  function PartsOfText(u: Text, negative: bool): NumberParts {
    var after, behind := AfterWhole(u), AfterFraction(u);
    NumberParts(negative, [], u[..IntegerLength(u)], after[..FractionLength(after)], FractionDigits(after),
                behind[..ExponentLength(behind)], ExponentOf(behind))
  }

  lemma UnsignedTakenApart(u: Text, negative: bool)
    ensures var p := PartsOfText(u, negative);
      u == p.whole + (p.fraction + (p.exponent + AfterExponent(u)))
  {
    hide IntegerLength, FractionLength, ExponentLength, FractionDigits, ExponentOf;
    var after := AfterWhole(u);
    TakenApart(u, IntegerLength(u), FractionLength(after), ExponentLength(AfterFraction(u)));
  }

  lemma UnsignedRead(u: Text, negative: bool, x: Number, rest: Text)
    requires ReadUnsigned(u, negative) == Ok(Read(x, rest))
    ensures
      var p := PartsOfText(u, negative);
      && IntegerLength(u) > 0 && rest == AfterExponent(u) && InRange(x)
      && AllDigits(p.whole) && AllDigits(p.digits) && x == NumberOf(negative, p.whole, p.digits, p.power)
  {
    hide IntegerLength, FractionLength, ExponentLength, FractionDigits, ExponentOf, InRange, NumberOf;
  }

  /** What is read of a number behind its sign is a spelling of it. */
  lemma UnsignedIsSpelled(u: Text, negative: bool, x: Number, rest: Text) returns (p: NumberParts)
    requires ReadUnsigned(u, negative) == Ok(Read(x, rest))
    ensures p.negative == negative && u == p.whole + (p.fraction + (p.exponent + rest)) && InRange(x)
    ensures IsWhole(p.whole) && IsFraction(p.fraction, p.digits) && IsExponent(p.exponent, p.power)
    ensures IsValue(x, negative, DigitsValue(p.whole + p.digits), |p.digits| - p.power)
  {
    hide PartsOfText, ReadUnsigned, AfterExponent, IsWhole, IsExponent, IsFraction, InRange, NumberOf, IsValue,
      DigitsValue, AllDigits, IntegerLength;
    p := PartsOfText(u, negative);
    UnsignedRead(u, negative, x, rest);
    UnsignedTakenApart(u, negative);
    PartsAreSpelled(u, negative);
    NumberOfIsValue(negative, p.whole, p.digits, p.power);
  }

  lemma PartsAreSpelled(u: Text, negative: bool)
    requires IntegerLength(u) > 0
    ensures
      var p := PartsOfText(u, negative);
      && p.negative == negative && IsWhole(p.whole) && IsFraction(p.fraction, p.digits)
      && IsExponent(p.exponent, p.power)
  {
    hide IntegerLength, FractionLength, ExponentLength, FractionDigits, ExponentOf, AfterWhole, AfterFraction, IsWhole,
      IsFraction, IsExponent;
    ReadWholeIsSpelled(u);
    ReadFractionIsSpelled(AfterWhole(u));
    ReadExponentIsSpelled(AfterFraction(u));
  }

  lemma SignedApart(sign: Text, p: NumberParts, rest: Text)
    ensures sign + (p.whole + (p.fraction + (p.exponent + rest)))
         == sign + (p.whole + (p.fraction + p.exponent)) + rest
  {
    Associates(p.fraction, p.exponent, rest);
    Associates(p.whole, p.fraction + p.exponent, rest);
    Associates(sign, p.whole + (p.fraction + p.exponent), rest);
  }

  /** What is read of a number is a spelling of it. */
  lemma ReadNumberIsSpelled(t: Text, x: Number, rest: Text) returns (w: Text)
    requires ReadNumber(t) == Ok(Read(x, rest))
    ensures t == w + rest && NumberSpells(w, x) && InRange(x)
  {
    hide ReadUnsigned, NumberSpells, InRange;
    if Starts(t, MINUS) {
      w := SignedIsSpelled(t[1..], true, x, rest);
      assert t == [MINUS] + t[1..];
    } else {
      w := SignedIsSpelled(t, false, x, rest);
      assert [] + t == t;
    }
  }

  lemma SignedIsSpelled(u: Text, negative: bool, x: Number, rest: Text) returns (w: Text)
    requires ReadUnsigned(u, negative) == Ok(Read(x, rest))
    ensures Sign(negative) + u == w + rest && NumberSpells(w, x) && InRange(x)
  {
    hide ReadUnsigned, IsExponent, IsValue, DigitsValue, InRange, IsWhole, IsFraction;
    var p := UnsignedIsSpelled(u, negative, x, rest);
    var sign := Sign(negative);
    SignedApart(sign, p, rest);
    w := sign + (p.whole + (p.fraction + p.exponent));
    assert PartsSpell(p.(sign := sign), w, x);
  }

  lemma SpelledExponentIsRead(w: Text, power: int, rest: Text)
    requires IsExponent(w, power) && Delimited(rest)
    ensures EndsDigits(w + rest) && (w + rest != [] ==> (w + rest)[0] != DOT)
    ensures ExponentLength(w + rest) == |w| && ExponentOf(w + rest) == power
  {
    if w == [] {
      assert w + rest == rest;
      ReadNoExponent(rest);
    } else {
      var sign: Text, digits: Text :| && w[1..] == sign + digits && (sign == [] || sign == [0x2B] || sign == [0x2D])
        && digits != [] && AllDigits(digits)
        && power == if sign == [0x2D] then 0 - DigitsValue(digits) else DigitsValue(digits);
      assert w == [w[0]] + (sign + digits);
      GivenExponentIsRead(w[0], sign, digits, rest);
    }
  }

  lemma HeadOfExponent(mark: nat, sign: Text, tail: Text)
    requires (mark == 0x65 || mark == 0x45) && (sign == [] || sign == [0x2B] || sign == [0x2D])
    requires tail != [] && IsDigit(tail[0])
    ensures
      var s := [mark] + (sign + tail);
      && ExponentHead(s) == 1 + |sign| && s[1 + |sign|..] == tail && (Starts(s[1..], MINUS) <==> sign == [0x2D])
      && (Starts(s, LOWER_E) || Starts(s, UPPER_E)) && !IsDigit(s[0]) && s[0] != DOT
  {
    var s := [mark] + (sign + tail);
    assert s[1..] == sign + tail;
    assert if sign == [] then s[1..][0] == tail[0] else s[1..][0] == sign[0];
  }

  lemma GivenExponentIsRead(mark: nat, sign: Text, digits: Text, rest: Text)
    requires (mark == 0x65 || mark == 0x45) && (sign == [] || sign == [0x2B] || sign == [0x2D])
    requires digits != [] && AllDigits(digits) && Delimited(rest)
    ensures
      var w := [mark] + (sign + digits);
      && EndsDigits(w + rest) && (w + rest)[0] != DOT && ExponentLength(w + rest) == |w|
      && ExponentOf(w + rest) == if sign == [0x2D] then 0 - DigitsValue(digits) else DigitsValue(digits)
  {
    var tail := digits + rest;
    assert IsDigit(digits[0]) && digits[0] == tail[0] && tail[..|digits|] == digits;
    Associates(sign, digits, rest);
    Associates([mark], sign + digits, rest);
    HeadOfExponent(mark, sign, tail);
    RunOfDigits(digits, rest);
    DigitsAddUpAlike(digits);
    hide NatValue, DigitsValue, AllDigits, DigitRun, ExponentHead, Starts, Delimited;
  }

  lemma SpelledParts(p: NumberParts, w: Text, x: Number, rest: Text)
    requires PartsSpell(p, w, x)
    ensures w != [] && (w[0] == MINUS || IsDigit(w[0]))
    ensures
      var t := p.whole + (Pointed(p.digits) + (p.exponent + rest));
      w + rest == Sign(p.negative) + t && t != [] && t[0] != MINUS
  {
    hide IsExponent, IsValue;
    assert IsDigit(p.whole[0]) && w[|p.sign|] == p.whole[0];
    assert p.fraction == Pointed(p.digits) && p.sign == Sign(p.negative);
    hide Pointed, Sign;
    SignedApart(p.sign, p, rest);
  }

  lemma SpelledValueIsRead(p: NumberParts, w: Text, x: Number)
    requires PartsSpell(p, w, x)
    ensures x == NumberOf(p.negative, p.whole, p.digits, p.power)
    ensures p.whole != [] && AllDigits(p.whole) && (p.whole[0] == ZERO ==> |p.whole| == 1) && AllDigits(p.digits)
  {
    hide IsExponent, IsValue, DigitsValue, NumberOf, AllDigits;
    NumberOfIsValue(p.negative, p.whole, p.digits, p.power);
    OneNormalForm(x, NumberOf(p.negative, p.whole, p.digits, p.power), p.negative,
                  DigitsValue(p.whole + p.digits), |p.digits| - p.power);
  }

  /** A spelled number is read, before anything that cannot be more of it. */
  lemma SpelledNumberIsRead(w: Text, x: Number, rest: Text)
    requires NumberSpells(w, x) && InRange(x) && Delimited(rest)
    ensures w != [] && (w[0] == MINUS || IsDigit(w[0]))
    ensures ReadNumber(w + rest) == Ok(Read(x, rest))
  {
    var p :| PartsSpell(p, w, x);
    hide IsExponent, IsValue, DigitsValue, NumberOf, ExponentLength, ExponentOf, ReadNumber, ReadUnsigned, Delimited,
      EndsDigits, InRange, Pointed, Sign, IsWhole, IsFraction, AllDigits;
    SpelledParts(p, w, x, rest);
    SpelledExponentIsRead(p.exponent, p.power, rest);
    SpelledValueIsRead(p, w, x);
    ReadParts(p.negative, p.whole, p.digits, p.exponent, rest);
    ReadSigned(p.whole + (Pointed(p.digits) + (p.exponent + rest)), p.negative);
  }
}
