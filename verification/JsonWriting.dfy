/**
 How JSON.stringify writes what the plan files hold
 (packages/runner/src/execution-plans/execution-plan-json.ts): of the texts that spell a value, the one
 without blanks, with the shortest escapes, and with numbers as ECMA-262 writes them.
 */
module JsonWriting {
  import opened Wrappers
  import opened JsonText
  import opened JsonGrammar
  import opened JsonRoundTrip
  import opened JsonSpelling
  import opened JsonAcceptance

  /** What is written spells the value. */
  lemma WrittenSpells(v: Json)
    requires WellFormed(v)
    ensures Padded(Stringify(v), v)
  {
    ParseUndoesStringify(v);
    ParsesExactlyWhenSpelled(Stringify(v), v);
  }

  // ---------------------------------------------------------------- strings

  predicate IsSurrogate(u: nat) {
    0xD800 <= u < 0xE000
  }

  lemma SpellsSomehow(u: nat, w: Text)
    requires UnitSpells(w, u)
    ensures |w| == 1 || |w| == 2 || |w| == 6
    ensures |w| == 1 ==> u >= 0x20 && u != 0x22 && u != 0x5C
    ensures |w| == 2 ==> exists c: nat :: EscapeMeans(c, u)
  {
  }

  /** The shortest spelling of a code unit, in lower case; surrogates without a partner are escaped. */
  lemma UnitIsWrittenShort(u: nat)
    requires u < 0x10000
    ensures UnitSpells(WriteUnit(u), u)
    ensures if IsSurrogate(u) then |WriteUnit(u)| == 6 else forall w :: UnitSpells(w, u) ==> |WriteUnit(u)| <= |w|
    ensures |WriteUnit(u)| == 6 ==> forall k :: 2 <= k < 6 ==> !(0x41 <= WriteUnit(u)[k] <= 0x46)
  {
    var t := WriteUnit(u);
    DecodeWrittenUnit(u, []);
    assert t + [] == t && t[..|t|] == t;
    DecodeUnitExactly(t, |t|, u);
    hide UnitSpells;
    forall w | UnitSpells(w, u) ensures IsSurrogate(u) || |t| <= |w| {
      SpellsSomehow(u, w);
    }
  }

  /** A surrogate pair is written as it is. */
  lemma PairIsWrittenAsItIs(high: nat, low: nat, s: Text)
    requires 0xD800 <= high < 0xDC00 && 0xDC00 <= low < 0xE000
    ensures WriteUnits([high, low] + s) == [high, low] + WriteUnits(s)
  {
    var t := [high, low] + s;
    assert t[..2] == [high, low] && t[2..] == s;
  }

  /** Any other unit is written by itself. */
  lemma OtherUnitIsWrittenByItself(s: Text)
    requires s != []
    requires |s| > 1 && 0xD800 <= s[0] < 0xDC00 ==> !(0xDC00 <= s[1] < 0xE000)
    ensures WriteUnits(s) == WriteUnit(s[0]) + WriteUnits(s[1..])
  {
  }

  // ---------------------------------------------------------------- arrays and objects

  function ItemLengths(items: seq<Json>): nat {
    if items == [] then 0 else |Stringify(items[0])| + ItemLengths(items[1..])
  }

  function MemberLengths(members: seq<Member>): nat {
    if members == [] then 0
    else |WriteString(members[0].key)| + 1 + |Stringify(members[0].value)| + MemberLengths(members[1..])
  }

  function Commas(n: nat): nat {
    if n == 0 then 0 else n - 1
  }

  lemma {:induction false} ItemsAreCompact(items: seq<Json>)
    ensures |StringifyItems(items)| == ItemLengths(items) + Commas(|items|)
  {
    if items != [] {
      ItemsAreCompact(items[1..]);
    }
  }

  lemma {:induction false} MembersAreCompact(members: seq<Member>)
    ensures |StringifyMembers(members)| == MemberLengths(members) + Commas(|members|)
  {
    if members != [] {
      MembersAreCompact(members[1..]);
    }
  }

  /** Nothing is written but the parts, the brackets, and the commas and colons between: there is no room for blanks. */
  lemma WrittenIsCompact(items: seq<Json>, members: seq<Member>)
    ensures |Stringify(Arr(items))| == 2 + ItemLengths(items) + Commas(|items|)
    ensures |Stringify(Obj(members))| == 2 + MemberLengths(members) + Commas(|members|)
  {
    ItemsAreCompact(items);
    MembersAreCompact(members);
  }

  // ---------------------------------------------------------------- numbers

  lemma {:induction false} NumberOfDigits(m: nat)
    requires m > 0
    ensures Pow10(|WriteNat(m)| - 1) <= m < Pow10(|WriteNat(m)|)
  {
    if m >= 10 {
      NumberOfDigits(m / 10);
      assert WriteNat(m) == WriteNat(m / 10) + [0x30 + m % 10];
      var k := |WriteNat(m / 10)|;
      assert Pow10(k + 1) == 10 * Pow10(k) && Pow10(k) == 10 * Pow10(k - 1);
    } else {
      assert Pow10(1) == 10 * Pow10(0);
    }
  }

  lemma {:induction false} PowGrows(j: nat, k: nat)
    requires j <= k
    ensures Pow10(j) <= Pow10(k)
  {
    if j < k {
      PowGrows(j, k - 1);
    }
  }

  lemma PlainUnits(t: Text)
    requires AllDigits(t)
    ensures LOWER_E !in t
  {
  }

  lemma NoneIn(u: nat, s: Text, t: Text)
    ensures u in s + t <==> u in s || u in t
  {
  }

  lemma PointNotation(digits: Text, n: int)
    requires AllDigits(digits) && n < |digits|
    ensures n > 0 ==> LOWER_E !in digits[..n] + ([DOT] + digits[n..])
    ensures n <= 0 ==> LOWER_E !in [ZERO] + ([DOT] + (Zeros(-n) + digits))
  {
    PlainUnits(digits);
    if n > 0 {
      assert digits == digits[..n] + digits[n..];
      NoneIn(LOWER_E, digits[..n], digits[n..]);
      NoneIn(LOWER_E, digits[..n], [DOT] + digits[n..]);
      NoneIn(LOWER_E, [DOT], digits[n..]);
    } else {
      NoneIn(LOWER_E, [ZERO], [DOT] + (Zeros(-n) + digits));
      NoneIn(LOWER_E, [DOT], Zeros(-n) + digits);
      NoneIn(LOWER_E, Zeros(-n), digits);
    }
  }

  lemma ExponentNotation(m: nat, places: nat)
    requires |WriteNat(m)| - places <= -6
    ensures LOWER_E in WriteDecimal(m, places)
  {
    var digits := WriteNat(m);
    var n := |digits| - places;
    var behind, exponent := if |digits| == 1 then [] else [DOT] + digits[1..], [LOWER_E, MINUS] + WriteNat(1 - n);
    assert exponent[0] == LOWER_E && LOWER_E in exponent;
    NoneIn(LOWER_E, behind, exponent);
    NoneIn(LOWER_E, digits[..1], behind + exponent);
    hide WriteNat;
  }

  lemma PlainNotation(m: nat, places: nat)
    requires places > 0 && |WriteNat(m)| - places > -6
    ensures LOWER_E !in WriteDecimal(m, places)
  {
    assert AllDigits(WriteNat(m));
    hide WriteNat;
    PointNotation(WriteNat(m), |WriteNat(m)| - places);
  }

  /** A decimal is written with an exponent exactly when it is below a millionth. */
  lemma ExponentExactlyWhen(m: int, places: nat)
    requires ValidNumber(Decimal(m, places))
    ensures LOWER_E in WriteNumber(Decimal(m, places)) <==> Abs(m) * Pow10(6) < Pow10(places)
  {
    var size := Abs(m);
    assert size > 0;
    hide WriteDecimal, WriteNat, Pow10;
    NumberOfDigits(size);
    DigitsAgainstPlaces(size, |WriteNat(size)|, places);
    if |WriteNat(size)| - places > -6 {
      PlainNotation(size, places);
    } else {
      ExponentNotation(size, places);
    }
    NoneIn(LOWER_E, if m < 0 then [MINUS] else [], WriteDecimal(size, places));
  }

  lemma DigitsAgainstPlaces(m: nat, k: nat, places: nat)
    requires k > 0 && Pow10(k - 1) <= m < Pow10(k)
    ensures m * Pow10(6) < Pow10(places) <==> k + 6 <= places
  {
    PowSum(k - 1, 6);
    PowSum(k, 6);
    if k + 6 <= places {
      PowGrows(k + 6, places);
      Times(m, Pow10(k), Pow10(6));
    } else {
      PowGrows(places, k + 5);
      TimesAtLeast(Pow10(k - 1), m, Pow10(6));
    }
  }

  lemma Times(a: nat, b: nat, p: nat)
    requires a < b && p > 0
    ensures a * p < b * p
  {
  }

  lemma TimesAtLeast(a: nat, b: nat, p: nat)
    requires a <= b
    ensures a * p <= b * p
  {
  }
}
