/**
 Integers in JSON text: `valueToString` of json_writer.cpp with `uintToString` of
 json_tool.h, and `decodeNumber` of json_reader.cpp.
 */
module JsonInteger {
  import opened Wrappers
  import opened Octets
  import opened JsonValue

  const MAX_INT := 0x7FFF_FFFF_FFFF_FFFF
  const MAX_UINT := 0xFFFF_FFFF_FFFF_FFFF
  const ZERO: byte := '0' as int
  const MINUS: byte := '-' as int
  /** `uintToStringBufferSize` */
  const BUFFER_SIZE := 3 * 8 + 1

  predicate IsDigit(c: byte) {
    ZERO <= c <= '9' as int
  }

  predicate AllDigits(s: seq<byte>) {
    forall i :: 0 <= i < |s| ==> IsDigit(s[i])
  }

  /** The number that a run of digits stands for. */
  function ValueOf(s: seq<byte>): nat
    requires AllDigits(s)
  {
    if s == [] then 0 else 10 * ValueOf(s[..|s| - 1]) + (s[|s| - 1] - ZERO)
  }

  /** The digits of a number. */
  function Decimal(n: nat): (s: seq<byte>)
    ensures s != [] && AllDigits(s)
  {
    if n < 10 then [ZERO + n] else Decimal(n / 10) + [ZERO + n % 10]
  }

  function Pow10(k: nat): nat {
    if k == 0 then 1 else 10 * Pow10(k - 1)
  }

  lemma {:induction false} ValueOfDecimal(n: nat)
    ensures ValueOf(Decimal(n)) == n
  {
    if n >= 10 {
      ValueOfDecimal(n / 10);
      assert Decimal(n)[..|Decimal(n)| - 1] == Decimal(n / 10);
    } else {
      assert Decimal(n)[..0] == [];
    }
  }

  lemma {:induction false} DecimalLength(n: nat, k: nat)
    requires k > 0 && n < Pow10(k)
    ensures |Decimal(n)| <= k
  {
    if n >= 10 {
      DecimalLength(n / 10, k - 1);
    }
  }

  /** No 64-bit number has more than 20 digits. */
  lemma DigitsFit(n: nat)
    requires n <= MAX_UINT
    ensures |Decimal(n)| <= 20
  {
    assert Pow10(5) == 10_0000;
    assert Pow10(10) == 100_0000_0000;
    assert Pow10(15) == 1000_0000_0000_0000;
    assert Pow10(20) == 1_0000_0000_0000_0000_0000;
    DecimalLength(n, 20);
  }

  // ------------------------------------------------------------------
  // Writing
  // ------------------------------------------------------------------

  /**
   `uintToString`: the digits and a final zero go to the end of the buffer, and never start before
   its second octet.
   */
  method UIntToString(value: nat, buffer: array<byte>) returns (current: nat)
    requires value <= MAX_UINT && buffer.Length == BUFFER_SIZE
    modifies buffer
    ensures 0 < current < BUFFER_SIZE && buffer[current..] == Decimal(value) + [0]
  {
    hide Decimal;
    DigitsFit(value);
    current := BUFFER_SIZE - 1;
    buffer[current] := 0;
    var rest, more := value, true;
    while more
      invariant 0 <= rest && 0 < current < BUFFER_SIZE
      invariant Decimal(value) + [0] == (if more then Decimal(rest) else []) + buffer[current..]
      decreases more, rest
    {
      LastDigit(rest);
      WrittenSoFar(value, rest, buffer[current..]);
      ghost var written := buffer[current..];
      current := current - 1;
      buffer[current] := rest % 10 + ZERO;
      assert buffer[current..] == [ZERO + rest % 10] + written;
      rest, more := rest / 10, rest / 10 != 0;
    }
  }

  function Leading(n: nat): seq<byte> {
    if n / 10 != 0 then Decimal(n / 10) else []
  }

  lemma LastDigit(n: nat)
    ensures Decimal(n) == Leading(n) + [ZERO + n % 10]
  {
  }

  lemma WrittenSoFar(value: nat, rest: nat, written: seq<byte>)
    requires Decimal(value) + [0] == Decimal(rest) + written
    requires |Decimal(value)| <= 20 && Decimal(rest) == Leading(rest) + [ZERO + rest % 10]
    ensures |written| <= 20
    ensures Decimal(value) + [0] == Leading(rest) + ([ZERO + rest % 10] + written)
  {
    assert |Decimal(value)| + 1 == |Decimal(rest)| + |written|;
  }

  /** The text of an integer. */
  function IntegerText(n: int): (s: seq<byte>)
    ensures s != []
  {
    if n < 0 then [MINUS] + Decimal(-n) else Decimal(n)
  }

  /** The negation of a signed 64-bit number, which the least of them does not have. */
  function Negated(value: int): (n: int)
    requires -MAX_INT <= value <= MAX_INT
    ensures n + value == 0
  {
    -value
  }

  /** `valueToString(LargestInt)`: the assertion that the buffer is never underrun holds. */
  method IntToString(value: int) returns (text: seq<byte>)
    requires -MAX_INT - 1 <= value <= MAX_INT
    ensures text == IntegerText(value)
  {
    hide Decimal;
    var buffer := new byte[BUFFER_SIZE];
    var current;
    if value == -MAX_INT - 1 {
      current := UIntToString(MAX_INT + 1, buffer);
      current := PutMinus(buffer, current);
    } else if value < 0 {
      current := UIntToString(Negated(value), buffer);
      current := PutMinus(buffer, current);
    } else {
      current := UIntToString(value, buffer);
    }
    assert current >= 0;
    assert buffer[current..] == IntegerText(value) + [0];
    text := CString(buffer, current, IntegerText(value));
  }

  /** The characters up to the final zero. */
  method CString(buffer: array<byte>, current: nat, ghost expected: seq<byte>) returns (text: seq<byte>)
    requires current < buffer.Length && buffer[current..] == expected + [0]
    ensures text == expected
  {
    text := buffer[current..buffer.Length - 1];
    assert text == buffer[current..][..|expected|] == expected;
  }

  /** `*--current = '-'` */
  method PutMinus(buffer: array<byte>, current: nat) returns (next: nat)
    requires 0 < current < buffer.Length
    modifies buffer
    ensures next == current - 1
    ensures buffer[next..] == [MINUS] + old(buffer[current..])
  {
    next := current - 1;
    buffer[next] := MINUS;
  }

  /** `valueToString(LargestUInt)` */
  method LargestUIntToString(value: nat) returns (text: seq<byte>)
    requires value <= MAX_UINT
    ensures text == IntegerText(value)
  {
    var buffer := new byte[BUFFER_SIZE];
    var current := UIntToString(value, buffer);
    text := CString(buffer, current, IntegerText(value));
  }

  // ------------------------------------------------------------------
  // Reading
  // ------------------------------------------------------------------

  /** Non-negative numbers are signed as far as they can be. */
  function OfInteger(n: int): Value
    requires -MAX_INT - 1 <= n <= MAX_UINT
  {
    if n <= MAX_INT then Int(n) else UInt(n)
  }

  /** The number of a token, unless it is left to the floating-point path. */
  function IntegerOf(token: seq<byte>): Option<Value>
    requires token != []
  {
    var negative := token[0] == MINUS;
    var digits := if negative then token[1..] else token;
    if !AllDigits(digits) then None
    else if negative then
      if ValueOf(digits) <= MAX_INT + 1 then Some(Int(0 - ValueOf(digits))) else None
    else
      if ValueOf(digits) <= MAX_UINT then Some(OfInteger(ValueOf(digits))) else None
  }

  /** More digits only make a number greater. */
  lemma {:induction false} ValueOfPrefix(s: seq<byte>, i: nat)
    requires AllDigits(s) && i <= |s|
    ensures ValueOf(s[..i]) <= ValueOf(s)
    ensures i < |s| ==> 10 * ValueOf(s[..i]) <= ValueOf(s)
    decreases |s| - i
  {
    if i == |s| {
      assert s[..i] == s;
    } else {
      ValueOfPrefix(s, i + 1);
      assert s[..i + 1][..i] == s[..i];
    }
  }

  /** The threshold tests of the loop catch exactly the numbers that are too large. */
  lemma OverThreshold(s: seq<byte>, i: nat, limit: nat)
    requires AllDigits(s) && i < |s| && limit >= 10
    requires ValueOf(s[..i]) >= limit / 10
    requires ValueOf(s[..i]) > limit / 10 || i + 1 < |s| || s[i] - ZERO > limit % 10
    ensures ValueOf(s) > limit
  {
    var v, digit := ValueOf(s[..i]), s[i] - ZERO;
    assert s[..i + 1][..i] == s[..i];
    assert ValueOf(s[..i + 1]) == 10 * v + digit;
    ValueOfPrefix(s, i + 1);
    if i + 1 < |s| {
      assert 10 * (10 * v + digit) <= ValueOf(s);
    }
  }

  /**
   `decodeNumber`: the mathematical integer exactly when it is in range. The 64-bit
   arithmetic never wraps around; None hands over to `decodeDouble`.
   */
  method DecodeNumber(token: seq<byte>) returns (decoded: Option<Value>)
    requires token != []
    ensures decoded == IntegerOf(token)
  {
    hide ValueOf, IsDigit;
    var current := 0;
    var isNegative := token[current] == MINUS;
    if isNegative {
      current := current + 1;
    }
    ghost var digits, limit := token[current..], if isNegative then MAX_INT + 1 else MAX_UINT;
    ghost var first := current;
    var threshold := if isNegative then (MAX_INT + 1) / 10 else MAX_UINT / 10;
    var maxLastDigit := if isNegative then (MAX_INT + 1) % 10 else MAX_UINT % 10;
    var value := 0;
    NoDigits(digits);
    while current < |token|
      invariant first <= current <= |token| && AllDigits(digits[..current - first])
      invariant value == ValueOf(digits[..current - first]) <= limit
    {
      var c := token[current];
      OneMoreDigit(digits, current - first);
      current := current + 1;
      if !IsDigit(c) {
        return None;
      }
      var digit := c - ZERO;
      if value >= threshold {
        if value > threshold || current != |token| || digit > maxLastDigit {
          if AllDigits(digits) {
            OverThreshold(digits, current - 1 - first, limit);
          }
          return None;
        }
      }
      value := value * 10 + digit;
    }
    assert digits[..|digits|] == digits;
    if isNegative {
      decoded := Some(Int(-(value / 10) * 10 - value % 10));
    } else if value <= MAX_INT {
      decoded := Some(Int(value));
    } else {
      decoded := Some(UInt(value));
    }
  }

  lemma NoDigits(s: seq<byte>)
    ensures AllDigits(s[..0]) && ValueOf(s[..0]) == 0
  {
  }

  lemma OneMoreDigit(s: seq<byte>, i: nat)
    requires i < |s| && AllDigits(s[..i])
    ensures IsDigit(s[i]) ==> ZERO <= s[i] <= ZERO + 9
    ensures if IsDigit(s[i]) then AllDigits(s[..i + 1]) && ValueOf(s[..i + 1]) == 10 * ValueOf(s[..i]) + (s[i] - ZERO)
            else !AllDigits(s)
  {
    assert s[..i + 1] == s[..i] + [s[i]];
  }

  /** Reading inverts writing; a number that fits the signed type comes back signed. */
  lemma IntegerRoundTrip(n: int)
    requires -MAX_INT - 1 <= n <= MAX_UINT
    ensures IntegerOf(IntegerText(n)) == Some(OfInteger(n))
  {
    if n < 0 {
      ValueOfDecimal(-n);
      assert IntegerText(n)[1..] == Decimal(-n);
    } else {
      ValueOfDecimal(n);
      assert IsDigit(Decimal(n)[0]);
    }
  }

  /** A minus sign alone is read as zero. */
  lemma LoneMinusIsZero()
    ensures IntegerOf([MINUS]) == Some(Int(0))
  {
    assert [MINUS][1..] == [];
  }
}
