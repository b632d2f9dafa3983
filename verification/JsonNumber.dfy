/**
 JSON numbers: printing 64-bit integers into a buffer and reading numerals back.  Reading a numeral
 as a double is the C library's business and enters as a parameter.
 */
module JsonNumber {
  import opened Arithmetic
  import opened ByteText
  import opened JsonValue
  import opened JsonString

  const HALF_WORD: int := 0x8000_0000_0000_0000

  /** Conversion to a signed 64-bit integer, wrapping. */
  function ToInt64(x: int): int {
    (x + HALF_WORD) % WORD - HALF_WORD
  }

  predicate IsDigit(c: Byte) {
    ZERO <= c <= NINE
  }

  predicate AllDigits(s: Bytes) {
    forall i :: 0 <= i < |s| ==> IsDigit(s[i])
  }

  /** The decimal text of a natural number. */
  function Digits(n: nat): (s: Bytes)
    ensures AllDigits(s) && s != []
  {
    if n < 10 then [ZERO + n] else Digits(n / 10) + [ZERO + n % 10]
  }

  function NumeralText(negative: bool, digits: Bytes): Bytes {
    (if negative then [MINUS] else []) + digits
  }

  function IntText(i: int): Bytes {
    if i < 0 then NumeralText(true, Digits(-i)) else NumeralText(false, Digits(i))
  }

  /** The number a string of digits denotes. */
  function NatOf(s: Bytes): nat
    requires AllDigits(s)
  {
    if s == [] then 0 else NatOf(s[..|s| - 1]) * 10 + (s[|s| - 1] - ZERO)
  }

  lemma {:induction false} NatOfDigits(n: nat)
    ensures NatOf(Digits(n)) == n
  {
    if n >= 10 {
      NatOfDigits(n / 10);
      assert Digits(n)[..|Digits(n)| - 1] == Digits(n / 10);
    } else {
      assert NatOf([ZERO + n]) == NatOf([]) * 10 + n;
    }
  }

  // ---------- printing ----------

  function Pow10(k: nat): nat {
    if k == 0 then 1 else 10 * Pow10(k - 1)
  }

  lemma {:induction false} DigitCount(n: nat, k: nat)
    requires k > 0 && n < Pow10(k)
    ensures |Digits(n)| <= k
  {
    if n >= 10 {
      DigitCount(n / 10, k - 1);
    }
  }

  /** A 64-bit number has at most twenty digits. */
  lemma AtMostTwentyDigits(n: nat)
    requires n <= MAX_UINT
    ensures |Digits(n)| <= 20
  {
    assert Pow10(5) == 100_000;
    assert Pow10(10) == 100_000 * Pow10(5);
    assert Pow10(15) == 100_000 * Pow10(10);
    assert Pow10(20) == 100_000 * Pow10(15);
    DigitCount(n, 20);
  }

  const UINT_BUFFER_SIZE: nat := 25

  /** Writes the digits and the terminating zero backwards from the end of the buffer.  The buffer is
      never underrun, and nothing outside the written part changes. */
  method UIntToString(value: nat, buffer: array<Byte>) returns (current: nat)
    requires value <= MAX_UINT && buffer.Length == UINT_BUFFER_SIZE
    modifies buffer
    ensures 4 <= current < UINT_BUFFER_SIZE
    ensures buffer[current..] == Digits(value) + [NUL]
    ensures buffer[..current] == old(buffer[..current])
  {
    AtMostTwentyDigits(value);
    current := UINT_BUFFER_SIZE - 1;
    buffer[current] := NUL;
    var rest: nat := value;
    var more := true;
    while more
      invariant rest <= value && current < UINT_BUFFER_SIZE
      invariant more ==> current - |Digits(rest)| >= 4 && Digits(rest) + buffer[current..] == Digits(value) + [NUL]
      invariant !more ==> current >= 4 && buffer[current..] == Digits(value) + [NUL]
      invariant buffer[..current] == old(buffer[..current])
      decreases more, rest
    {
      ghost var written := buffer[current..];
      current := current - 1;
      buffer[current] := ZERO + rest % 10;
      assert buffer[current..] == [ZERO + rest % 10] + written;
      more := rest / 10 != 0;
      assert more ==> Digits(rest) + written == Digits(rest / 10) + buffer[current..];
      rest := rest / 10;
    }
  }

  lemma WrappedMagnitude(value: int)
    requires MIN_INT <= value < 0
    ensures ToInt64(-value) % WORD == -value
  {
  }

  /** The text of a signed integer.  The negation wraps, so that the least integer, too, is its own
      magnitude read as unsigned. */
  method ValueToString(value: int) returns (text: Bytes)
    requires MIN_INT <= value <= MAX_INT
    ensures text == IntText(value)
  {
    hide Digits, ToInt64;
    var magnitude := value;
    if value < 0 {
      WrappedMagnitude(value);
      magnitude := ToInt64(-value) % WORD;
    }
    text := MagnitudeToString(value < 0, magnitude);
  }

  method MagnitudeToString(negative: bool, value: nat) returns (text: Bytes)
    requires value <= MAX_UINT
    ensures text == NumeralText(negative, Digits(value))
  {
    hide Digits;
    var buffer := new Byte[UINT_BUFFER_SIZE](_ => NUL);
    var current := UIntToString(value, buffer);
    ghost var digits := buffer[current..];
    if negative {
      current := current - 1;
      buffer[current] := MINUS;
    }
    assert buffer[current..] == NumeralText(negative, digits);
    assert buffer[current..UINT_BUFFER_SIZE - 1] == buffer[current..][..UINT_BUFFER_SIZE - 1 - current];
    text := buffer[current..UINT_BUFFER_SIZE - 1];
  }

  method UnsignedToString(value: nat) returns (text: Bytes)
    requires value <= MAX_UINT
    ensures text == Digits(value)
  {
    text := MagnitudeToString(false, value);
  }

  // ---------- reading ----------

  datatype Numeral = Integer(value: nat) | TooLong | NotDigits

  /** The accumulation loop over digits s with the value read so far; the arithmetic is modulo 2^64. */
  function ScanDigits(s: Bytes, value: nat, max: nat): Numeral {
    if s == [] then Integer(value)
    else if !IsDigit(s[0]) then NotDigits
    else if value >= max / 10 && (|s| > 1 || s[0] - ZERO > max % 10) then TooLong
    else ScanDigits(s[1..], (value * 10 + (s[0] - ZERO)) % WORD, max)
  }

  /** What the loop makes of a numeral, by the numeral's true value alone. */
  function ScanOutcome(n: nat, max: nat): Numeral {
    if n / 100 < max / 10 && (n / 10 < max / 10 || n % 10 <= max % 10) then Integer(n % WORD) else TooLong
  }

  lemma {:induction false} PrefixIsNoGreater(p: Bytes, s: Bytes)
    requires AllDigits(p + s)
    ensures AllDigits(p) && NatOf(p) <= NatOf(p + s)
  {
    assert forall i :: 0 <= i < |p| ==> p[i] == (p + s)[i];
    if s == [] {
      assert p + s == p;
    } else {
      assert (p + s)[..|p + s| - 1] == p + s[..|s| - 1];
      PrefixIsNoGreater(p, s[..|s| - 1]);
    }
  }

  lemma PrefixIsSmaller(p: Bytes, s: Bytes)
    requires AllDigits(p + s) && AllDigits(p) && |s| >= 2
    ensures NatOf(p + s) / 100 >= NatOf(p)
  {
    var all := p + s;
    var front := all[..|all| - 1];
    assert front[..|front| - 1] == p + s[..|s| - 2];
    PrefixIsNoGreater(p, s[..|s| - 2]);
    assert NatOf(front) / 10 == NatOf(p + s[..|s| - 2]);
    assert NatOf(all) / 10 == NatOf(front);
  }

  lemma ScanLastDigit(value: nat, d: Byte, max: nat)
    requires IsDigit(d) && value / 10 < max / 10
    ensures ScanDigits([d], value, max) == ScanOutcome(value * 10 + (d - ZERO), max)
  {
    var n := value * 10 + (d - ZERO);
    assert n / 10 == value && n % 10 == d - ZERO && n / 100 == value / 10;
    assert [d][1..] == [];
  }

  lemma ScanStep(s: Bytes, value: nat, max: nat)
    requires s != [] && IsDigit(s[0]) && value < max / 10 && max < WORD
    ensures ScanDigits(s, value, max) == ScanDigits(s[1..], value * 10 + (s[0] - ZERO), max)
    ensures (value * 10 + (s[0] - ZERO)) / 10 == value
  {
    var next := value * 10 + (s[0] - ZERO);
    assert next < max;
    assert next % WORD == next;
  }

  lemma AppendDigit(p: Bytes, d: Byte)
    requires AllDigits(p) && IsDigit(d)
    ensures AllDigits(p + [d]) && NatOf(p + [d]) == NatOf(p) * 10 + (d - ZERO)
  {
    assert (p + [d])[..|p|] == p;
  }

  lemma {:induction false} ScanFrom(p: Bytes, s: Bytes, max: nat)
    requires AllDigits(p + s) && AllDigits(p) && s != []
    requires 100 <= max < WORD
    requires NatOf(p) / 10 < max / 10
    ensures ScanDigits(s, NatOf(p), max) == ScanOutcome(NatOf(p + s), max)
    decreases |s|
  {
    assert s[0] == (p + s)[|p|];
    var q := p + [s[0]];
    AppendDigit(p, s[0]);
    if |s| == 1 {
      assert p + s == q && s == [s[0]];
      ScanLastDigit(NatOf(p), s[0], max);
    } else if NatOf(p) >= max / 10 {
      PrefixIsSmaller(p, s);
    } else {
      assert p + s == q + s[1..];
      ScanStep(s, NatOf(p), max);
      ScanFrom(q, s[1..], max);
    }
  }

  /** For every string of digits, leading zeros included, the loop's outcome is decided by the value
      the digits denote. */
  lemma ScanByValue(s: Bytes, max: nat)
    requires AllDigits(s) && s != [] && 100 <= max < WORD
    ensures ScanDigits(s, 0, max) == ScanOutcome(NatOf(s), max)
    ensures NatOf(s) <= max ==> ScanDigits(s, 0, max) == Integer(NatOf(s))
  {
    assert NatOf([]) == 0;
    hide ScanDigits, NatOf;
    assert [] + s == s;
    ScanFrom([], s, max);
  }

  predicate IsRealMark(c: Byte) {
    c == DOT || c == LOWER_E || c == UPPER_E || c == PLUS
  }

  /** Some character, or a minus sign after the first place, marks the numeral as a double. */
  predicate IsDouble(text: Bytes) {
    exists i :: 0 <= i < |text| && (IsRealMark(text[i]) || (text[i] == MINUS && i > 0))
  }

  datatype Number = Number(value: Value) | BadNumber(message: Message)

  /** sscanf of a double: the number read, if there is one. */
  type ScanReal = Bytes -> Option<real>

  function DecodeDouble(text: Bytes, scan: ScanReal): Number {
    match scan(text)
    case Some(r) => Number(Real(r))
    case None => BadNumber(NotANumber)
  }

  function DecodeInteger(text: Bytes, scan: ScanReal): Number {
    var negative := text != [] && text[0] == MINUS;
    match ScanDigits(if negative then text[1..] else text, 0, if negative then HALF_WORD else MAX_UINT)
    case NotDigits => BadNumber(NotANumber)
    case TooLong => DecodeDouble(text, scan)
    case Integer(n) =>
      Number(if negative then Int(ToInt64(-ToInt64(n))) else if n <= MAX_INT then Int(n) else UInt(n))
  }

  function DecodeNumber(text: Bytes, scan: ScanReal): Number {
    if IsDouble(text) then DecodeDouble(text, scan) else DecodeInteger(text, scan)
  }

  /** The numerals that are scanned as a double: marked as one, or with too many digits for the integer loop. */
  predicate IsReadAsDouble(text: Bytes) {
    var negative := text != [] && text[0] == MINUS;
    IsDouble(text) || ScanDigits(if negative then text[1..] else text, 0, Magnitude(negative)).TooLong?
  }

  /** The integer value a numeral stands for: signed when it fits, unsigned otherwise. */
  function IntegerValue(negative: bool, n: nat): Value {
    if negative then Int(-(n as int)) else if n <= MAX_INT then Int(n) else UInt(n)
  }

  function Magnitude(negative: bool): nat {
    if negative then HALF_WORD else MAX_UINT
  }

  lemma NumeralIsNotDouble(negative: bool, digits: Bytes)
    requires AllDigits(digits) && digits != []
    ensures !IsDouble(NumeralText(negative, digits))
    ensures NumeralText(negative, digits) != [] && (NumeralText(negative, digits)[0] == MINUS <==> negative)
    ensures negative ==> NumeralText(negative, digits)[1..] == digits
    ensures !negative ==> NumeralText(negative, digits) == digits
  {
    var text := NumeralText(negative, digits);
    var skip := if negative then 1 else 0;
    assert forall i :: skip <= i < |text| ==> text[i] == digits[i - skip];
  }

  /** A decimal numeral is read as exactly the integer it denotes if and only if that integer is in
      the 64-bit range: signed for a negative numeral, unsigned otherwise. */
  lemma IntegerReadExactly(negative: bool, digits: Bytes, scan: ScanReal)
    requires AllDigits(digits) && digits != []
    ensures DecodeNumber(NumeralText(negative, digits), scan) == Number(IntegerValue(negative, NatOf(digits)))
            <==> NatOf(digits) <= Magnitude(negative)
  {
    hide ScanDigits, NatOf;
    NumeralIsNotDouble(negative, digits);
    ScanByValue(digits, Magnitude(negative));
  }

  /** What is left of an integer beyond the range, modulo 2^64. */
  function WrappedValue(negative: bool, n: nat): Value {
    if negative then Int(ToInt64(-(n as int))) else IntegerValue(false, n % WORD)
  }

  lemma NegationWraps(n: nat)
    requires n < 5 * WORD
    ensures ToInt64(-ToInt64(n % WORD)) == ToInt64(-(n as int))
  {
  }

  /** Beyond the range the reader does not always turn to a double: when only the last digit overflows,
      and is no greater than the last digit of the maximum, the wrapped-around integer is taken. */
  lemma OverflowIsSilent(negative: bool, digits: Bytes, scan: ScanReal)
    requires AllDigits(digits) && digits != [] && NatOf(digits) > Magnitude(negative)
    ensures var n, max, text := NatOf(digits), Magnitude(negative), NumeralText(negative, digits);
            DecodeNumber(text, scan) ==
            if n / 100 < max / 10 && n % 10 <= max % 10 then Number(WrappedValue(negative, n))
            else DecodeDouble(text, scan)
  {
    hide ScanDigits, NatOf, ToInt64;
    NumeralIsNotDouble(negative, digits);
    ScanByValue(digits, Magnitude(negative));
    if negative && NatOf(digits) / 100 < Magnitude(negative) / 10 {
      NegationWraps(NatOf(digits));
    }
  }

  /** 18446744073709551620 is read as 4, and -9223372036854775810 as 9223372036854775806. */
  lemma OverflowExample(digits: Bytes, scan: ScanReal)
    requires AllDigits(digits) && digits != []
    ensures NatOf(digits) == 18446744073709551620 ==> DecodeNumber(digits, scan) == Number(Int(4))
    ensures NatOf(digits) == 9223372036854775810 ==>
            DecodeNumber([MINUS] + digits, scan) == Number(Int(9223372036854775806))
  {
    if NatOf(digits) == 18446744073709551620 {
      OverflowIsSilent(false, digits, scan);
      assert NumeralText(false, digits) == digits;
    }
    if NatOf(digits) == 9223372036854775810 {
      OverflowIsSilent(true, digits, scan);
    }
  }

  /** Reading undoes printing, on every signed and every unsigned 64-bit integer. */
  lemma NumberRoundTrip(scan: ScanReal)
    ensures forall i :: MIN_INT <= i <= MAX_INT ==> DecodeNumber(IntText(i), scan) == Number(Int(i))
    ensures forall u: nat :: u <= MAX_UINT ==> DecodeNumber(Digits(u), scan) == Number(IntegerValue(false, u))
  {
    forall i | MIN_INT <= i <= MAX_INT ensures DecodeNumber(IntText(i), scan) == Number(Int(i)) {
      var n := if i < 0 then -i else i;
      NatOfDigits(n);
      IntegerReadExactly(i < 0, Digits(n), scan);
      assert IntText(i) == NumeralText(i < 0, Digits(n));
    }
    forall u: nat | u <= MAX_UINT ensures DecodeNumber(Digits(u), scan) == Number(IntegerValue(false, u)) {
      NatOfDigits(u);
      IntegerReadExactly(false, Digits(u), scan);
      assert NumeralText(false, Digits(u)) == Digits(u);
    }
  }

  /** A point, an exponent or a sign within a numeral hands it to the library, whatever else it holds. */
  lemma MarkedIsDouble(text: Bytes, scan: ScanReal, i: nat)
    requires i < |text| && (text[i] in {0x2E, 0x65, 0x45, 0x2B} || (i > 0 && text[i] == 0x2D))
    ensures DecodeNumber(text, scan) ==
            if scan(text).Some? then Number(Real(scan(text).value)) else BadNumber(NotANumber)
  {
    hide DecodeInteger;
    assert IsRealMark(text[i]) || (text[i] == MINUS && i > 0);
  }

  /** Only zero is printed with a zero in front. */
  lemma {:induction false} NoLeadingZero(n: nat)
    ensures Digits(n)[0] == 0x30 <==> n == 0
  {
    if n >= 10 {
      NoLeadingZero(n / 10);
    }
  }

  /** A text without digits: a lone minus is read as zero, and anything else that no mark makes a double is refused. */
  lemma NoDigitsAtAll(c: Byte, s: Bytes, scan: ScanReal)
    ensures DecodeNumber([0x2D], scan) == Number(Int(0))
    ensures !(0x30 <= c <= 0x39) && c != 0x2D && !IsDouble([c] + s) ==>
            DecodeNumber([c] + s, scan) == BadNumber(NotANumber)
  {
    assert [MINUS][1..] == [];
    assert !IsDouble([MINUS]);
  }
}
