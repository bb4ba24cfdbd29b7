/**
 Writing and reading undo each other: the grammar of JsonGrammar gives back, from what
 JSON.stringify writes, exactly the value that was written, and stops where it ends.
 */
module JsonRoundTrip {
  import opened Wrappers
  import opened JsonText
  import opened JsonGrammar

  // ---------------------------------------------------------------- strings

  lemma HexDigitValue(n: nat)
    requires n < 16
    ensures HexValue(HexDigit(n)) == Some(n)
  {
  }

  lemma HexDigitsAddUp(u: nat)
    requires u < 0x10000
    ensures u / 0x1000 * 0x1000 + u / 0x100 % 16 * 0x100 + u / 0x10 % 16 * 0x10 + u % 16 == u
    ensures u / 0x1000 < 16
  {
    LastDigit(u);
    LastDigit(u / 0x10);
    LastDigit(u / 0x100);
    assert u / 0x10 / 0x10 == u / 0x100 && u / 0x100 / 0x10 == u / 0x1000;
  }

  lemma LastDigit(u: nat)
    ensures u / 16 * 16 + u % 16 == u
  {
  }

  lemma DecodeHexEscape(u: nat, t: Text)
    requires u < 0x10000
    ensures DecodeUnit(HexEscape(u) + t) == Some((u, 6))
  {
    HexDigitsAddUp(u);
    HexDigitValue(u / 0x1000);
    HexDigitValue(u / 0x100 % 16);
    HexDigitValue(u / 0x10 % 16);
    HexDigitValue(u % 16);
    var s := HexEscape(u) + t;
    assert s[0] == BACKSLASH && s[1] == LOWER_U && SimpleEscape(s[1]) == None;
    assert s[2] == HexDigit(u / 0x1000) && s[3] == HexDigit(u / 0x100 % 16);
    assert s[4] == HexDigit(u / 0x10 % 16) && s[5] == HexDigit(u % 16);
  }

  lemma DecodeWrittenUnit(u: nat, t: Text)
    ensures DecodeUnit(WriteUnit(u) + t) == Some((u, |WriteUnit(u)|))
  {
    if WriteUnit(u) == [u] {
    } else if |WriteUnit(u)| == 2 {
      var s := WriteUnit(u) + t;
      assert s[0] == BACKSLASH && s[1] == WriteUnit(u)[1];
    } else {
      DecodeHexEscape(u, t);
    }
  }

  lemma DecodeOneMore(u: nat, w: Text, t: Text, s: Text)
    requires w != [] && DecodeUnit(w + t) == Some((u, |w|)) && DecodeUnits(t) == Some(s)
    ensures DecodeUnits(w + t) == Some([u] + s)
  {
    assert (w + t)[|w|..] == t;
    assert w + t != [QUOTE];
  }

  /** How many code units of `s` are written together: a surrogate pair, or one unit. */
  function ChunkSize(s: Text): (n: nat)
    requires s != []
    ensures 0 < n <= |s|
  {
    if StartsWithPair(s) then 2 else 1
  }

  function WriteChunk(s: Text): Text
    requires s != []
  {
    if StartsWithPair(s) then s[..2] else WriteUnit(s[0])
  }

  lemma WriteUnitsByChunk(s: Text, more: Text)
    requires s != []
    ensures WriteUnits(s) + more == WriteChunk(s) + (WriteUnits(s[ChunkSize(s)..]) + more)
  {
    hide WriteUnit;
    var chunk, rest := WriteChunk(s), WriteUnits(s[ChunkSize(s)..]);
    assert WriteUnits(s) == chunk + rest;
    hide WriteUnits, WriteChunk, ChunkSize;
    assert (chunk + rest) + more == chunk + (rest + more);
  }

  lemma DecodeChunk(s: Text, t: Text, decoded: Text)
    requires s != [] && DecodeUnits(t) == Some(decoded)
    ensures DecodeUnits(WriteChunk(s) + t) == Some(s[..ChunkSize(s)] + decoded)
  {
    hide DecodeUnits, WriteUnit;
    if StartsWithPair(s) {
      DecodeOneMore(s[1], [s[1]], t, decoded);
      DecodeOneMore(s[0], [s[0]], [s[1]] + t, [s[1]] + decoded);
      assert WriteChunk(s) + t == [s[0]] + ([s[1]] + t);
      assert s[..2] + decoded == [s[0]] + ([s[1]] + decoded);
    } else {
      DecodeWrittenUnit(s[0], t);
      assert WriteUnit(s[0]) != [] by {
        DecodeWrittenUnit(s[0], []);
      }
      DecodeOneMore(s[0], WriteUnit(s[0]), t, decoded);
      assert s[..1] == [s[0]];
    }
  }

  lemma NothingWritten(rest: Text)
    ensures WriteUnits([]) + rest == rest
    ensures DecodeUnits([QUOTE]) == Some([])
  {
  }

  lemma {:induction false} DecodeWrittenUnits(s: Text)
    ensures DecodeUnits(WriteUnits(s) + [QUOTE]) == Some(s)
    decreases |s|
  {
    hide WriteUnits, WriteChunk, DecodeUnits, ChunkSize;
    if s == [] {
      NothingWritten([QUOTE]);
    } else {
      var tail := s[ChunkSize(s)..];
      var t := WriteUnits(tail) + [QUOTE];
      WriteUnitsByChunk(s, [QUOTE]);
      DecodeWrittenUnits(tail);
      DecodeChunk(s, t, tail);
      assert s == s[..ChunkSize(s)] + tail;
    }
  }

  /** The scan for the closing quote steps over one written character. */
  lemma ScanWrittenUnit(T: Text, i: nat, u: nat)
    requires i + |WriteUnit(u)| <= |T| && T[i..i + |WriteUnit(u)|] == WriteUnit(u)
    ensures LiteralLength(T, i) == LiteralLength(T, i + |WriteUnit(u)|)
  {
    var w := WriteUnit(u);
    assert forall k :: 0 <= k < |w| ==> T[i + k] == w[k];
    assert T[i] == w[0];
    if |w| == 6 {
      assert T[i + 2] == w[2] && T[i + 3] == w[3] && T[i + 4] == w[4] && T[i + 5] == w[5];
      assert LiteralLength(T, i) == LiteralLength(T, i + 2);
      assert LiteralLength(T, i + 2) == LiteralLength(T, i + 3);
      assert LiteralLength(T, i + 3) == LiteralLength(T, i + 4);
      assert LiteralLength(T, i + 4) == LiteralLength(T, i + 5);
      assert LiteralLength(T, i + 5) == LiteralLength(T, i + 6);
    }
  }

  lemma ScanChunk(T: Text, i: nat, s: Text, more: Text)
    requires s != [] && i <= |T| && T[i..] == WriteChunk(s) + more
    ensures i + |WriteChunk(s)| <= |T| && T[i + |WriteChunk(s)|..] == more
    ensures LiteralLength(T, i) == LiteralLength(T, i + |WriteChunk(s)|)
  {
    hide WriteUnit;
    var w := WriteChunk(s);
    assert |T[i..]| == |w| + |more|;
    assert T[i..][..|w|] == w && T[i..][|w|..] == more;
    assert T[i..i + |w|] == T[i..][..|w|] && T[i + |w|..] == T[i..][|w|..];
    if StartsWithPair(s) {
      assert T[i] == T[i..][0] == s[0] && T[i + 1] == T[i..][1] == s[1];
      assert LiteralLength(T, i + 1) == LiteralLength(T, i + 2);
    } else {
      ScanWrittenUnit(T, i, s[0]);
    }
  }

  lemma {:induction false} ScanWrittenUnits(T: Text, i: nat, s: Text, rest: Text)
    requires i <= |T| && T[i..] == WriteUnits(s) + ([QUOTE] + rest)
    ensures LiteralLength(T, i) == Some(i + |WriteUnits(s)| + 1)
    decreases |s|
  {
    hide WriteUnits, WriteChunk, ChunkSize;
    if s == [] {
      NothingWritten([QUOTE] + rest);
      NothingWritten([]);
      assert T[i] == T[i..][0] == QUOTE;
    } else {
      hide LiteralLength;
      var tail := s[ChunkSize(s)..];
      WriteUnitsByChunk(s, [QUOTE] + rest);
      ScanChunk(T, i, s, WriteUnits(tail) + ([QUOTE] + rest));
      ScanWrittenUnits(T, i + |WriteChunk(s)|, tail, rest);
      assert |WriteUnits(s)| == |WriteChunk(s)| + |WriteUnits(tail)| by {
        WriteUnitsByChunk(s, []);
      }
    }
  }

  /** A written string reads back as itself, whatever follows it. */
  lemma ReadWrittenString(s: Text, rest: Text)
    ensures ReadString(WriteString(s) + rest) == Ok(Read(s, rest))
  {
    var T := WriteString(s) + rest;
    assert T[1..] == WriteUnits(s) + ([QUOTE] + rest);
    ScanWrittenUnits(T, 1, s, rest);
    assert T[..|WriteString(s)|] == WriteString(s) && T[|WriteString(s)|..] == rest;
    assert WriteString(s)[1..] == WriteUnits(s) + [QUOTE];
    DecodeWrittenUnits(s);
  }

  // ---------------------------------------------------------------- numbers

  /** The text after a value cannot be taken for more of a number. */
  predicate Delimited(rest: Text) {
    rest == [] || (!IsDigit(rest[0]) && rest[0] != DOT && rest[0] != LOWER_E && rest[0] != UPPER_E)
  }

  lemma Associates(x: Text, y: Text, z: Text)
    ensures (x + y) + z == x + (y + z)
  {
  }

  predicate EndsDigits(rest: Text) {
    rest == [] || !IsDigit(rest[0])
  }

  lemma {:induction false} RunOfDigits(digits: Text, rest: Text)
    requires AllDigits(digits) && EndsDigits(rest)
    ensures DigitRun(digits + rest) == |digits|
  {
    if digits == [] {
      assert digits + rest == rest;
    } else {
      RunOfDigits(digits[1..], rest);
      assert (digits + rest)[1..] == digits[1..] + rest;
    }
  }

  /** The digits before the point: a zero alone, or digits that do not start with one. */
  lemma ReadWhole(digits: Text, rest: Text)
    requires AllDigits(digits) && digits != [] && (digits[0] == ZERO ==> |digits| == 1) && EndsDigits(rest)
    ensures
      var s := digits + rest;
      && IntegerLength(s) == |digits| && s[..|digits|] == digits && s[|digits|..] == rest && IsDigit(s[0])
  {
    RunOfDigits(digits, rest);
    assert (digits + rest)[0] == digits[0];
  }

  lemma ReadFraction(digits: Text, rest: Text)
    requires AllDigits(digits) && digits != [] && EndsDigits(rest)
    ensures
      var s := [DOT] + digits + rest;
      FractionLength(s) == 1 + |digits| && FractionDigits(s) == digits && s[1 + |digits|..] == rest
  {
    var s := [DOT] + digits + rest;
    RunOfDigits(digits, rest);
    assert s[1..] == digits + rest && s[0] == DOT;
    assert s[1..1 + |digits|] == digits;
  }

  lemma ReadNoFraction(rest: Text)
    requires rest == [] || rest[0] != DOT
    ensures FractionLength(rest) == 0 && FractionDigits(rest) == [] && rest[0..] == rest
  {
  }

  lemma ReadNoExponent(rest: Text)
    requires Delimited(rest)
    ensures ExponentLength(rest) == 0 && ExponentOf(rest) == 0 && rest[0..] == rest
  {
  }

  lemma ReadExponentDigits(w: Text, rest: Text)
    requires AllDigits(w) && w != [] && EndsDigits(rest)
    ensures
      var s := [LOWER_E, MINUS] + (w + rest);
      ExponentLength(s) == 2 + |w| && ExponentOf(s) == 0 - NatValue(w)
  {
    hide NatValue;
    var s, more := [LOWER_E, MINUS] + (w + rest), w + rest;
    assert s[0] == LOWER_E && s[1..][0] == MINUS && s[2..] == more;
    assert ExponentHead(s) == 2;
    RunOfDigits(w, rest);
    assert more[..|w|] == w;
    hide AllDigits, EndsDigits, ExponentHead, DigitRun;
  }

  lemma ReadExponent(n: nat, rest: Text)
    requires EndsDigits(rest)
    ensures
      var s := [LOWER_E, MINUS] + WriteNat(n) + rest;
      ExponentLength(s) == 2 + |WriteNat(n)| && ExponentOf(s) == 0 - n
  {
    WrittenNatValue(n);
    assert AllDigits(WriteNat(n));
    hide WriteNat, NatValue, ExponentLength, ExponentOf, AllDigits;
    ReadExponentDigits(WriteNat(n), rest);
    Associates([LOWER_E, MINUS], WriteNat(n), rest);
  }

  /** A number's text after its sign: digits, a fraction and an exponent. */
  lemma ReadParts(negative: bool, whole: Text, fraction: Text, exponent: Text, rest: Text)
    requires AllDigits(whole) && whole != [] && (whole[0] == ZERO ==> |whole| == 1) && AllDigits(fraction)
    requires EndsDigits(exponent + rest) && ExponentLength(exponent + rest) == |exponent|
    requires fraction == [] && exponent + rest != [] ==> (exponent + rest)[0] != DOT
    ensures
      var number := NumberOf(negative, whole, fraction, ExponentOf(exponent + rest));
      ReadUnsigned(whole + (Pointed(fraction) + (exponent + rest)), negative)
      == if InRange(number) then Ok(Read(number, rest)) else Err(UnsafeNumber)
  {
    var tail := exponent + rest;
    var afterWhole := Pointed(fraction) + tail;
    assert tail[|exponent|..] == rest;
    FractionBefore(fraction, tail);
    ReadWhole(whole, afterWhole);
    hide NumberOf, InRange, IntegerLength, FractionLength, FractionDigits, ExponentLength, ExponentOf, Pointed;
  }

  function Pointed(fraction: Text): Text {
    if fraction == [] then [] else [DOT] + fraction
  }

  lemma FractionBefore(fraction: Text, tail: Text)
    requires AllDigits(fraction) && EndsDigits(tail) && (fraction == [] && tail != [] ==> tail[0] != DOT)
    ensures
      var s := Pointed(fraction) + tail;
      && FractionDigits(s) == fraction && s[FractionLength(s)..] == tail && EndsDigits(s)
  {
    if fraction == [] {
      assert [] + tail == tail;
      ReadNoFraction(tail);
    } else {
      ReadFraction(fraction, tail);
    }
  }

  lemma ReadSigned(t: Text, negative: bool)
    requires t != [] && t[0] != MINUS
    ensures ReadNumber(Sign(negative) + t) == ReadUnsigned(t, negative)
  {
    var s := Sign(negative) + t;
    assert if negative then s[1..] == t && s[0] == MINUS else s == t;
    hide ReadUnsigned;
  }

  function Sign(negative: bool): Text {
    if negative then [MINUS] else []
  }

  // ---------------------------------------------------------------- the value of digits

  lemma {:induction false} ZerosCountNothing(n: nat, digits: Text)
    requires AllDigits(digits)
    ensures AllDigits(Zeros(n) + digits) && NatValue(Zeros(n) + digits) == NatValue(digits)
    decreases n + |digits|
  {
    var all := Zeros(n) + digits;
    if digits != [] {
      assert all[..|all| - 1] == Zeros(n) + digits[..|digits| - 1];
      ZerosCountNothing(n, digits[..|digits| - 1]);
    } else if n > 0 {
      assert all[..|all| - 1] == Zeros(n - 1) + [];
      ZerosCountNothing(n - 1, []);
    }
  }

  lemma TenTimes(n: int, k: nat)
    requires k > 0
    ensures n * Pow10(k) == 10 * (n * Pow10(k - 1))
  {
    var p := Pow10(k - 1);
    assert Pow10(k) == 10 * p;
    hide Pow10;
    assert n * (10 * p) == 10 * (n * p);
  }

  /** Bringing m * 10^-places into normal form does not change the number. */
  lemma {:induction false} NormalIsExact(m: nat, places: int)
    ensures
      match Normal(m, places)
      case Whole(n) => if places <= 0 then n == m * Pow10(-places) else n * Pow10(places) == m
      case Decimal(d, p) => p <= places && d * Pow10(places - p) == m
    decreases if places > 0 then places else 0
  {
    if places > 0 && m > 0 && m % 10 == 0 {
      NormalIsExact(m / 10, places - 1);
      var x := Normal(m / 10, places - 1);
      assert Normal(m, places) == x;
      hide Normal;
      match x
      case Whole(n) => TenTimes(n, places);
      case Decimal(d, p) => TenTimes(d, places - p);
    }
  }

  lemma NormalStays(m: nat, places: nat)
    requires places > 0 && m % 10 != 0
    ensures Normal(m, places) == Decimal(m, places)
  {
  }

  lemma WholeOf(n: int)
    ensures NumberOf(n < 0, WriteNat(Abs(n)), [], 0) == Whole(n)
    ensures WriteInt(n) == Sign(n < 0) + WriteNat(Abs(n))
  {
    var digits := WriteNat(Abs(n));
    WrittenNatValue(Abs(n));
    hide WriteNat, NatValue;
    assert digits + [] == digits && [] + digits == digits;
  }

  lemma ReadWholeDigits(negative: bool, digits: Text, rest: Text)
    requires AllDigits(digits) && digits != [] && (digits[0] == ZERO ==> |digits| == 1) && Delimited(rest)
    ensures
      var number := NumberOf(negative, digits, [], 0);
      ReadNumber(Sign(negative) + (digits + rest))
      == if InRange(number) then Ok(Read(number, rest)) else Err(UnsafeNumber)
  {
    ReadNoExponent(rest);
    assert [] + rest == rest && IsDigit(digits[0]);
    hide NumberOf, ExponentLength, ExponentOf, ReadNumber, ReadUnsigned, InRange, Sign;
    ReadParts(negative, digits, [], [], rest);
    ReadSigned(digits + rest, negative);
  }

  lemma ReadWrittenInt(n: int, rest: Text)
    requires InRange(Whole(n)) && Delimited(rest)
    ensures ReadNumber(WriteInt(n) + rest) == Ok(Read(Whole(n), rest))
  {
    var digits := WriteNat(Abs(n));
    assert AllDigits(digits);
    hide WriteNat, NumberOf, WriteInt, ReadNumber, InRange, Sign, AllDigits, Delimited;
    WholeOf(n);
    ReadWholeDigits(n < 0, digits, rest);
    Associates(Sign(n < 0), digits, rest);
  }

  /** The digits before and after the point, and the exponent, of a written decimal. */
  datatype Parts = Parts(whole: Text, fraction: Text, exponent: Text, shift: nat)

  function PartsOf(m: nat, places: nat): Parts {
    var digits := WriteNat(m);
    var n := |digits| - places;
    if n > 0 then Parts(digits[..n], digits[n..], [], 0)
    else if n > -6 then Parts([ZERO], Zeros(-n) + digits, [], 0)
    else Parts(digits[..1], digits[1..], [LOWER_E, MINUS] + WriteNat(1 - n), 1 - n)
  }

  lemma WrittenInParts(m: nat, places: nat)
    requires places > 0
    ensures
      var p := PartsOf(m, places);
      WriteDecimal(m, places) == p.whole + (Pointed(p.fraction) + p.exponent)
  {
    var digits := WriteNat(m);
    var n := |digits| - places;
    hide WriteNat;
    if n > 0 {
      assert ([DOT] + digits[n..]) + [] == [DOT] + digits[n..];
    } else if n > -6 {
      var fraction := Zeros(-n) + digits;
      assert fraction != [] && ([DOT] + fraction) + [] == [DOT] + fraction;
    }
  }

  /** Whole digits, a fraction as long as the places less the shift, and together the digits of m. */
  ghost predicate AddUp(p: Parts, m: nat, places: nat) {
    && AllDigits(p.whole) && p.whole != [] && (p.whole[0] == ZERO ==> |p.whole| == 1) && AllDigits(p.fraction)
    && NatValue(p.whole + p.fraction) == m && |p.fraction| + p.shift == places
  }

  lemma DigitsAddUp(digits: Text, m: nat, i: nat, exponent: Text, places: nat)
    requires AllDigits(digits) && NatValue(digits) == m && 0 < i <= |digits| && digits[0] != ZERO
    requires |digits| - i <= places
    ensures AddUp(Parts(digits[..i], digits[i..], exponent, places - (|digits| - i)), m, places)
  {
    hide NatValue;
    assert digits[..i] + digits[i..] == digits && digits[..i][0] == digits[0];
    assert AllDigits(digits[..i]) && AllDigits(digits[i..]);
    hide AllDigits;
  }

  lemma OneMoreZero(n: nat, digits: Text)
    ensures [ZERO] + (Zeros(n) + digits) == Zeros(n + 1) + digits
  {
    assert [ZERO] + Zeros(n) == Zeros(n + 1);
    hide Zeros;
    Associates([ZERO], Zeros(n), digits);
  }

  lemma ZerosAddUp(digits: Text, m: nat, places: nat)
    requires AllDigits(digits) && NatValue(digits) == m && |digits| <= places
    ensures AddUp(Parts([ZERO], Zeros(places - |digits|) + digits, [], 0), m, places)
  {
    var n := places - |digits|;
    ZerosCountNothing(n, digits);
    ZerosCountNothing(n + 1, digits);
    OneMoreZero(n, digits);
    assert |Zeros(n) + digits| == places;
    hide Zeros, NatValue;
  }

  lemma PartsAddUp(m: nat, places: nat)
    requires places > 0 && m % 10 != 0
    ensures AddUp(PartsOf(m, places), m, places)
  {
    var digits := WriteNat(m);
    var n := |digits| - places;
    WrittenNatValue(m);
    assert AllDigits(digits) && digits[0] != ZERO;
    hide WriteNat, NatValue, AddUp, AllDigits;
    if n > 0 {
      DigitsAddUp(digits, m, n, [], places);
    } else if n > -6 {
      ZerosAddUp(digits, m, places);
    } else {
      DigitsAddUp(digits, m, 1, [LOWER_E, MINUS] + WriteNat(1 - n), places);
    }
  }

  lemma ReadShift(m: nat, places: nat, rest: Text)
    requires Delimited(rest)
    ensures
      var p := PartsOf(m, places);
      var tail := p.exponent + rest;
      && EndsDigits(tail) && (tail != [] ==> tail[0] != DOT)
      && ExponentLength(tail) == |p.exponent| && ExponentOf(tail) == 0 - p.shift
  {
    var p := PartsOf(m, places);
    hide ExponentLength, ExponentOf, WriteNat;
    if p.exponent == [] {
      assert [] + rest == rest;
      ReadNoExponent(rest);
    } else {
      ReadExponent(p.shift, rest);
    }
  }

  lemma DecimalOf(m: int, places: nat, p: Parts)
    requires places > 0 && m % 10 != 0 && AddUp(p, Abs(m), places)
    ensures NumberOf(m < 0, p.whole, p.fraction, 0 - p.shift) == Decimal(m, places)
  {
    assert Abs(m) % 10 != 0;
    NormalStays(Abs(m), places);
    hide NatValue, Normal;
  }

  lemma ReadDecimalParts(m: int, places: nat, p: Parts, rest: Text)
    requires ValidNumber(Decimal(m, places)) && AddUp(p, Abs(m), places)
    requires
      var tail := p.exponent + rest;
      && EndsDigits(tail) && (tail != [] ==> tail[0] != DOT)
      && ExponentLength(tail) == |p.exponent| && ExponentOf(tail) == 0 - p.shift
    ensures ReadUnsigned(p.whole + (Pointed(p.fraction) + (p.exponent + rest)), m < 0)
         == Ok(Read(Decimal(m, places), rest))
  {
    hide NatValue, NumberOf, ReadUnsigned, ExponentLength, ExponentOf, InRange, Pointed, EndsDigits;
    DecimalOf(m, places, p);
    ReadParts(m < 0, p.whole, p.fraction, p.exponent, rest);
  }

  lemma SignedParts(m: int, places: nat, p: Parts, rest: Text)
    requires p.whole != [] && AllDigits(p.whole)
    requires WriteDecimal(Abs(m), places) == p.whole + (Pointed(p.fraction) + p.exponent)
    ensures ReadNumber(WriteNumber(Decimal(m, places)) + rest)
         == ReadUnsigned(p.whole + (Pointed(p.fraction) + (p.exponent + rest)), m < 0)
  {
    var point, sign := Pointed(p.fraction), Sign(m < 0);
    var t := p.whole + (point + (p.exponent + rest));
    assert WriteNumber(Decimal(m, places)) == sign + WriteDecimal(Abs(m), places);
    assert t[0] == p.whole[0] && IsDigit(p.whole[0]);
    hide WriteNumber, WriteDecimal, ReadNumber, ReadUnsigned, Pointed, Sign;
    ReadSigned(t, m < 0);
    Associates(sign, p.whole + (point + p.exponent), rest);
    Associates(p.whole, point + p.exponent, rest);
    Associates(point, p.exponent, rest);
  }

  lemma ReadWrittenDecimal(m: int, places: nat, rest: Text)
    requires ValidNumber(Decimal(m, places)) && Delimited(rest)
    ensures ReadNumber(WriteNumber(Decimal(m, places)) + rest) == Ok(Read(Decimal(m, places), rest))
  {
    var p := PartsOf(Abs(m), places);
    assert Abs(m) % 10 != 0;
    hide PartsOf, WriteDecimal, WriteNumber, NatValue, ReadNumber, ReadUnsigned, ExponentLength, ExponentOf, InRange,
      Delimited, EndsDigits, Pointed;
    PartsAddUp(Abs(m), places);
    ReadShift(Abs(m), places, rest);
    WrittenInParts(Abs(m), places);
    ReadDecimalParts(m, places, p, rest);
    SignedParts(m, places, p, rest);
  }

  /** Every written number reads back as itself. */
  lemma ReadWrittenNumber(x: Number, rest: Text)
    requires ValidNumber(x) && Delimited(rest)
    ensures ReadNumber(WriteNumber(x) + rest) == Ok(Read(x, rest))
  {
    hide ReadNumber, WriteDecimal, WriteInt, InRange, Delimited;
    match x
    case Whole(n) => ReadWrittenInt(n, rest);
    case Decimal(m, places) => ReadWrittenDecimal(m, places, rest);
  }

  // ---------------------------------------------------------------- values

  lemma FirstOfNumber(x: Number)
    ensures WriteNumber(x) != [] && (WriteNumber(x)[0] == MINUS || IsDigit(WriteNumber(x)[0]))
  {
    var size := Abs(if x.Whole? then x.n else x.m);
    assert WriteNat(size) != [] && IsDigit(WriteNat(size)[0]);
    hide WriteNat;
  }

  /** The first code unit of a written value tells its kind. */
  lemma FirstUnit(v: Json)
    ensures Stringify(v) != [] && !IsWhitespace(Stringify(v)[0])
    ensures Stringify(v)[0] != CLOSE_BRACKET
    ensures v.Num? ==> Stringify(v)[0] == MINUS || IsDigit(Stringify(v)[0])
    ensures v.Str? ==> Stringify(v)[0] == QUOTE
  {
    if v.Num? {
      FirstOfNumber(v.x);
      hide WriteNumber;
    }
  }

  lemma ReadWrittenLiteral(v: Json, rest: Text)
    requires v.Null? || v.Bool?
    ensures ReadLiteral(Stringify(v) + rest) == Ok(Read(v, rest))
  {
    var s := Stringify(v) + rest;
    assert s[0] == Stringify(v)[0];
    assert Stringify(v) <= s;
  }

  lemma {:induction false} ReadWrittenValue(v: Json, rest: Text)
    requires WellFormed(v) && Delimited(rest)
    ensures ReadValue(Stringify(v) + rest) == Ok(Read(v, rest))
    decreases v, 1
  {
    hide WriteString, WriteNumber, StringifyItems, StringifyMembers,
      ReadString, ReadNumber, ReadArray, ReadObject, ReadLiteral;
    var s := Stringify(v) + rest;
    FirstUnit(v);
    assert s[0] == Stringify(v)[0];
    assert SkipWhitespace(s) == s;
    match v
    case Null => ReadWrittenLiteral(v, rest);
    case Bool(b) => ReadWrittenLiteral(v, rest);
    case Num(x) => ReadWrittenNumber(x, rest);
    case Str(text) => ReadWrittenString(text, rest);
    case Arr(items) =>
      assert s[1..] == StringifyItems(items) + [CLOSE_BRACKET] + rest;
      ReadWrittenArray(items, rest);
    case Obj(members) =>
      assert s[1..] == StringifyMembers(members) + [CLOSE_BRACE] + rest;
      ReadWrittenObject(members, rest);
  }

  lemma {:induction false} ReadWrittenArray(items: seq<Json>, rest: Text)
    requires forall x :: x in items ==> WellFormed(x)
    ensures ReadArray(StringifyItems(items) + [CLOSE_BRACKET] + rest) == Ok(Read(items, rest))
    decreases items, 1
  {
    var s := StringifyItems(items) + [CLOSE_BRACKET] + rest;
    if items == [] {
      assert s == [CLOSE_BRACKET] + rest && s[1..] == rest;
    } else {
      FirstUnit(items[0]);
      assert s[0] == Stringify(items[0])[0];
      ReadWrittenItems(items, rest);
    }
  }

  lemma {:induction false} ReadWrittenItems(items: seq<Json>, rest: Text)
    requires items != [] && forall x :: x in items ==> WellFormed(x)
    ensures ReadItems(StringifyItems(items) + [CLOSE_BRACKET] + rest) == Ok(Read(items, rest))
    decreases items, 0
  {
    hide Stringify, ReadValue, WellFormed;
    var first := Stringify(items[0]);
    var s := StringifyItems(items) + [CLOSE_BRACKET] + rest;
    if |items| == 1 {
      var t := [CLOSE_BRACKET] + rest;
      assert s == first + t && t[1..] == rest && items == [items[0]];
      assert SkipWhitespace(t) == t;
      ReadWrittenValue(items[0], t);
    } else {
      var more := StringifyItems(items[1..]) + [CLOSE_BRACKET] + rest;
      var t := [COMMA] + more;
      assert s == first + t && t[1..] == more && items == [items[0]] + items[1..];
      assert SkipWhitespace(t) == t;
      ReadWrittenValue(items[0], t);
      ReadWrittenItems(items[1..], rest);
    }
  }

  lemma {:induction false} ReadWrittenObject(members: seq<Member>, rest: Text)
    requires UniqueKeys(members) && forall m :: m in members ==> WellFormed(m.value)
    ensures ReadObject(StringifyMembers(members) + [CLOSE_BRACE] + rest) == Ok(Read(members, rest))
    decreases members, 2
  {
    var s := StringifyMembers(members) + [CLOSE_BRACE] + rest;
    if members == [] {
      assert s == [CLOSE_BRACE] + rest && s[1..] == rest;
    } else {
      assert s[0] == StringifyMember(members[0])[0] == QUOTE;
      ReadWrittenMembers(members, {}, rest);
    }
  }

  lemma ReadWrittenMember(m: Member, seen: set<Text>, rest: Text)
    requires WellFormed(m.value) && m.key !in seen && Delimited(rest)
    ensures ReadMember(StringifyMember(m) + rest, seen) == Ok(Read(m, rest))
    decreases m, 1
  {
    assert WriteString(m.key)[0] == QUOTE;
    hide Stringify, ReadValue, WriteString, ReadString, WellFormed, Delimited;
    var s := StringifyMember(m) + rest;
    var value := Stringify(m.value) + rest;
    var afterKey := [COLON] + value;
    assert s == WriteString(m.key) + afterKey;
    assert s[0] == WriteString(m.key)[0];
    assert SkipWhitespace(s) == s && SkipWhitespace(afterKey) == afterKey;
    ReadWrittenString(m.key, afterKey);
    assert afterKey[1..] == value;
    ReadWrittenValue(m.value, rest);
  }

  lemma {:induction false} ReadWrittenMembers(members: seq<Member>, seen: set<Text>, rest: Text)
    requires members != [] && UniqueKeys(members)
    requires forall m :: m in members ==> WellFormed(m.value) && m.key !in seen
    ensures ReadMembers(StringifyMembers(members) + [CLOSE_BRACE] + rest, seen) == Ok(Read(members, rest))
    decreases members, 1
  {
    hide StringifyMember, ReadMember, WellFormed;
    var first := StringifyMember(members[0]);
    var s := StringifyMembers(members) + [CLOSE_BRACE] + rest;
    if |members| == 1 {
      var t := [CLOSE_BRACE] + rest;
      assert s == first + t && t[1..] == rest && members == [members[0]];
      assert SkipWhitespace(t) == t;
      ReadWrittenMember(members[0], seen, t);
    } else {
      var more := StringifyMembers(members[1..]) + [CLOSE_BRACE] + rest;
      var t := [COMMA] + more;
      assert s == first + t && t[1..] == more && members == [members[0]] + members[1..];
      assert SkipWhitespace(t) == t;
      ReadWrittenMember(members[0], seen, t);
      ReadWrittenMembers(members[1..], seen + {members[0].key}, rest);
    }
  }

  /**
   Parsing what JSON.stringify wrote gives the value back and uses up the whole text, with or
   without the newline that ends a stored document.
   */
  lemma ParseUndoesStringify(v: Json)
    requires WellFormed(v)
    ensures Parse(Stringify(v)) == Ok(v)
    ensures Parse(Stringify(v) + [NEWLINE]) == Ok(v)
  {
    ReadWrittenValue(v, []);
    assert Stringify(v) + [] == Stringify(v);
    ReadWrittenValue(v, [NEWLINE]);
    assert [NEWLINE][1..] == [];
  }

  // ---------------------------------------------------------------- everything that is read is well formed

  lemma {:induction false} ReadValueWellFormed(s: Text)
    ensures ReadValue(s).Ok? ==> WellFormed(ReadValue(s).value.value)
    decreases |s|, 1
  {
    var t := SkipWhitespace(s);
    if Starts(t, OPEN_BRACE) {
      var u := SkipWhitespace(t[1..]);
      if !Starts(u, CLOSE_BRACE) {
        ReadMembersWellFormed(u, {});
      }
    } else if Starts(t, OPEN_BRACKET) {
      var u := SkipWhitespace(t[1..]);
      if !Starts(u, CLOSE_BRACKET) {
        ReadItemsWellFormed(u);
      }
    }
  }

  lemma {:induction false} ReadItemsWellFormed(s: Text)
    ensures ReadItems(s).Ok? ==> forall x :: x in ReadItems(s).value.value ==> WellFormed(x)
    decreases |s|, 2
  {
    ReadValueWellFormed(s);
    var first := ReadValue(s);
    if first.Ok? {
      var t := SkipWhitespace(first.value.rest);
      if !Starts(t, CLOSE_BRACKET) && Starts(t, COMMA) {
        ReadItemsWellFormed(t[1..]);
      }
    }
  }

  lemma {:induction false} ReadMemberWellFormed(s: Text, seen: set<Text>)
    ensures ReadMember(s, seen).Ok? ==>
      WellFormed(ReadMember(s, seen).value.value.value) && ReadMember(s, seen).value.value.key !in seen
    decreases |s|, 2
  {
    var t := SkipWhitespace(s);
    if Starts(t, QUOTE) && ReadString(t).Ok? {
      var u := SkipWhitespace(ReadString(t).value.rest);
      if Starts(u, COLON) {
        ReadValueWellFormed(u[1..]);
      }
    }
  }

  lemma {:induction false} ReadMembersWellFormed(s: Text, seen: set<Text>)
    ensures ReadMembers(s, seen).Ok? ==>
      && UniqueKeys(ReadMembers(s, seen).value.value)
      && forall m :: m in ReadMembers(s, seen).value.value ==> WellFormed(m.value) && m.key !in seen
    decreases |s|, 3
  {
    ReadMemberWellFormed(s, seen);
    var first := ReadMember(s, seen);
    if first.Ok? {
      var t := SkipWhitespace(first.value.rest);
      if !Starts(t, CLOSE_BRACE) && Starts(t, COMMA) {
        ReadMembersWellFormed(t[1..], seen + {first.value.value.key});
        if ReadMembers(s, seen).Ok? {
          var more := ReadMembers(t[1..], seen + {first.value.value.key}).value.value;
          assert ReadMembers(s, seen).value.value == [first.value.value] + more;
          assert forall k :: 0 <= k < |more| ==> more[k] in more;
        }
      }
    }
  }

  /** No text that is accepted repeats a member name or holds an unsafe number, at any depth. */
  lemma ParsedIsWellFormed(source: Text)
    ensures Parse(source).Ok? ==> WellFormed(Parse(source).value)
  {
    ReadValueWellFormed(source);
  }
}
