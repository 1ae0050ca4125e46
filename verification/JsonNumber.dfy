/**
 Integers of the JSON library: `decodeNumber`, `uintToString` and `valueToString`.
 `uint64` and `int64` are the C++ types; the verifier shows that no operation on
 them leaves its range.
 */
module JsonNumber {
  import opened Bytes

  const MAX_INT: int := 0x7FFF_FFFF_FFFF_FFFF
  const MIN_INT: int := -0x8000_0000_0000_0000
  const MAX_UINT: int := 0xFFFF_FFFF_FFFF_FFFF

  newtype uint64 = x: int | 0 <= x <= 0xFFFF_FFFF_FFFF_FFFF
  newtype int64 = x: int | -0x8000_0000_0000_0000 <= x <= 0x7FFF_FFFF_FFFF_FFFF

  /** What a number token decodes to; `AsDouble` is the floating-point path. */
  datatype Number = Signed(value: int) | Unsigned(value: int) | AsDouble

  predicate AllDigits(ds: bytes) {
    forall i | 0 <= i < |ds| :: IsDigit(ds[i])
  }

  /** The number that a digit string denotes in base ten. */
  function DigitsValue(ds: bytes): nat
    requires AllDigits(ds)
  {
    if ds == [] then 0
    else DigitsValue(ds[..|ds| - 1]) * 10 + (ds[|ds| - 1] as int - 48)
  }

  function Decimal(n: nat): bytes {
    if n < 10 then [48 + n] else Decimal(n / 10) + [48 + n % 10]
  }

  function IntText(n: int): bytes {
    if n < 0 then [MINUS] + Decimal(-n) else Decimal(n)
  }

  /** The smallest type that holds `n`, as the decoder prefers it. */
  function IntegerOf(n: int): Number {
    if MIN_INT <= n <= MAX_INT then Signed(n) else if MAX_INT < n <= MAX_UINT then Unsigned(n) else AsDouble
  }

  /** Mathematical meaning of an integer token: an optional minus and digits. */
  function TokenValue(text: bytes): int
    requires text != [] && AllDigits(Magnitude(text))
  {
    if text[0] == MINUS then -(DigitsValue(text[1..]) as int) else DigitsValue(text)
  }

  function Magnitude(text: bytes): bytes
    requires text != []
  {
    if text[0] == MINUS then text[1..] else text
  }

  /** Specification of `decodeNumber`: exact when it fits, otherwise a double. */
  function DecodeNumber(text: bytes): Number
    requires text != []
  {
    if AllDigits(Magnitude(text)) then IntegerOf(TokenValue(text)) else AsDouble
  }

  lemma {:induction false} PrefixValue(ds: bytes, i: nat)
    requires AllDigits(ds) && i <= |ds|
    ensures DigitsValue(ds[..i]) <= DigitsValue(ds)
    decreases |ds|
  {
    if i < |ds| {
      var ds' := ds[..|ds| - 1];
      PrefixValue(ds', i);
      assert ds'[..i] == ds[..i];
    } else {
      assert ds[..i] == ds;
    }
  }

  lemma ExtendValue(ds: bytes, i: nat)
    requires i < |ds| && AllDigits(ds[..i]) && IsDigit(ds[i])
    ensures AllDigits(ds[..i + 1])
    ensures DigitsValue(ds[..i + 1]) == DigitsValue(ds[..i]) * 10 + (ds[i] as int - 48)
  {
    var e := ds[..i + 1];
    assert e[..|e| - 1] == ds[..i];
  }

  /** Once the accumulated value passes a tenth of the limit, the whole token does not fit. */
  lemma PastThreshold(ds: bytes, i: nat, threshold: nat, last: nat)
    requires i < |ds| && AllDigits(ds) && last <= 9 && 0 < threshold
    requires var v := DigitsValue(ds[..i]);
             v > threshold || (v == threshold && (i + 1 < |ds| || ds[i] as int - 48 > last))
    ensures DigitsValue(ds) > threshold * 10 + last
  {
    ExtendValue(ds, i);
    PrefixValue(ds, i + 1);
    if i + 1 < |ds| {
      ExtendValue(ds, i + 1);
      PrefixValue(ds, i + 2);
    }
  }

  /** `decodeNumber`: the accumulating loop with its overflow guard. It is exact on every
      integer token: the mathematical value comes back if and only if it fits the signed
      or the unsigned 64-bit type. */
  method DecodeNumberLoop(text: bytes) returns (r: Number)
    requires text != []
    ensures r == DecodeNumber(text)
    ensures AllDigits(Magnitude(text)) ==> (r != AsDouble <==> MIN_INT <= TokenValue(text) <= MAX_UINT)
    ensures r != AsDouble ==> r.value == TokenValue(text)
  {
    var isNegative := text[0] == MINUS;
    var digits := if isNegative then text[1..] else text;
    var threshold: uint64 := if isNegative then 922337203685477580 else 1844674407370955161;
    var maxLastDigit: uint64 := if isNegative then 8 else 5;
    var value: uint64 := 0;
    var current := 0;
    while current < |digits|
      invariant current <= |digits|
      invariant AllDigits(digits[..current])
      invariant value as int == DigitsValue(digits[..current])
      invariant value as int <= threshold as int * 10 + maxLastDigit as int
    {
      var c := digits[current];
      current := current + 1;
      if c < ZERO || c > NINE {
        assert !AllDigits(digits);
        return AsDouble;
      }
      var digit := (c as int - 48) as uint64;
      if value >= threshold {
        if value > threshold || current != |digits| || digit > maxLastDigit {
          TooLarge(text, current - 1, threshold as int, maxLastDigit as int);
          return AsDouble;
        }
      }
      ExtendValue(digits, current - 1);
      value := value * 10 + digit;
    }
    assert digits[..current] == digits;
    if isNegative {
      var lastDigit := (value % 10) as int64;
      var tens := (value / 10) as int64;
      r := Signed((-tens * 10 - lastDigit) as int);
    } else if value <= 0x7FFF_FFFF_FFFF_FFFF {
      r := Signed(value as int);
    } else {
      r := Unsigned(value as int);
    }
  }

  lemma TooLarge(text: bytes, i: nat, threshold: nat, last: nat)
    requires text != [] && i < |Magnitude(text)|
    requires threshold == (if text[0] == MINUS then 922337203685477580 else 1844674407370955161)
    requires last == (if text[0] == MINUS then 8 else 5)
    requires AllDigits(Magnitude(text)[..i]) && IsDigit(Magnitude(text)[i])
    requires var v := DigitsValue(Magnitude(text)[..i]);
             v > threshold || (v == threshold && (i + 1 < |Magnitude(text)| || Magnitude(text)[i] as int - 48 > last))
    ensures DecodeNumber(text) == AsDouble
  {
    if AllDigits(Magnitude(text)) {
      PastThreshold(Magnitude(text), i, threshold, last);
    }
  }

  lemma {:induction false} DecimalDenotes(n: nat)
    ensures Decimal(n) != [] && AllDigits(Decimal(n)) && DigitsValue(Decimal(n)) == n
  {
    if n < 10 {
      assert Decimal(n)[..0] == [];
    } else {
      DecimalDenotes(n / 10);
      var ds := Decimal(n);
      assert ds[..|ds| - 1] == Decimal(n / 10);
    }
  }

  function Pow10(k: nat): nat {
    if k == 0 then 1 else 10 * Pow10(k - 1)
  }

  lemma {:induction false} DecimalLength(n: nat, k: nat)
    requires k > 0 && n < Pow10(k)
    ensures |Decimal(n)| <= k
  {
    if n >= 10 {
      assert n / 10 < Pow10(k - 1);
      DecimalLength(n / 10, k - 1);
    }
  }

  lemma UintLength(n: nat)
    requires n <= MAX_UINT
    ensures |Decimal(n)| <= 20
  {
    assert Pow10(20) == 100_000_000_000_000_000_000 by {
      assert Pow10(4) == 10_000;
      assert Pow10(8) == 10_000 * Pow10(4);
      assert Pow10(12) == 10_000 * Pow10(8);
      assert Pow10(16) == 10_000 * Pow10(12);
      assert Pow10(20) == 10_000 * Pow10(16);
    }
    DecimalLength(n, 20);
  }

  const BUFFER_SIZE := 25

  /** `uintToString`: digits are written backwards from `current`, after a NUL. */
  method UintToString(v: uint64, buffer: array<byte>, current: nat) returns (start: nat)
    requires |Decimal(v as int)| + 1 <= current <= buffer.Length
    modifies buffer
    ensures start == current - 1 - |Decimal(v as int)|
    ensures buffer[start..current - 1] == Decimal(v as int)
    ensures buffer[current - 1] == NUL
    ensures forall k | 0 <= k < buffer.Length && !(start <= k < current) :: buffer[k] == old(buffer[k])
  {
    var value := v;
    start := current - 1;
    buffer[start] := NUL;
    start := start - 1;
    buffer[start] := 48 + value as int % 10;
    DecimalStep(value as int);
    value := value / 10;
    while value != 0
      invariant 0 <= start < current - 1
      invariant buffer[current - 1] == NUL
      invariant value != 0 ==> |Decimal(value as int)| <= start
      invariant (if value == 0 then [] else Decimal(value as int)) + buffer[start..current - 1] == Decimal(v as int)
      invariant forall k | 0 <= k < buffer.Length && !(start <= k < current) :: buffer[k] == old(buffer[k])
    {
      ghost var written := buffer[start..current - 1];
      DecimalStep(value as int);
      start := start - 1;
      buffer[start] := 48 + value as int % 10;
      value := value / 10;
      assert buffer[start..current - 1] == [buffer[start]] + written;
    }
  }

  lemma DecimalStep(n: nat)
    ensures Decimal(n) == (if n / 10 == 0 then [] else Decimal(n / 10)) + [48 + n % 10]
  {
  }

  /** `valueToString(LargestInt)`. */
  method ValueToStringSigned(value: int64) returns (text: bytes)
    ensures text == IntText(value as int)
  {
    var buffer := new byte[BUFFER_SIZE](_ => 0);
    var magnitude: uint64;
    if value == -0x8000_0000_0000_0000 {
      magnitude := 0x7FFF_FFFF_FFFF_FFFF + 1;
    } else if value < 0 {
      magnitude := (-value) as uint64;
    } else {
      magnitude := value as uint64;
    }
    assert magnitude as int == if value < 0 then -(value as int) else value as int;
    UintLength(magnitude as int);
    hide Decimal;
    var current := UintToString(magnitude, buffer, BUFFER_SIZE);
    text := buffer[current..BUFFER_SIZE - 1];
    if value < 0 {
      ghost var digits := text;
      current := current - 1;
      buffer[current] := MINUS;
      text := buffer[current..BUFFER_SIZE - 1];
      assert text == [MINUS] + digits;
    }
  }

  /** `valueToString(LargestUInt)`. */
  method ValueToStringUnsigned(value: uint64) returns (text: bytes)
    ensures text == IntText(value as int)
  {
    var buffer := new byte[BUFFER_SIZE](_ => 0);
    UintLength(value as int);
    var current := UintToString(value, buffer, BUFFER_SIZE);
    text := buffer[current..BUFFER_SIZE - 1];
  }

  /** Printing any 64-bit integer and decoding the text gives the integer back. */
  lemma IntegerRoundTrip(n: int)
    requires MIN_INT <= n <= MAX_UINT
    ensures DecodeNumber(IntText(n)) == if n <= MAX_INT then Signed(n) else Unsigned(n)
  {
    DecimalDenotes(if n < 0 then -n else n);
    assert IntText(n)[0] == MINUS <==> n < 0;
    if n < 0 {
      assert IntText(n)[1..] == Decimal(-n);
    }
  }
}
