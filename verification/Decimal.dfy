/** Decimal printing and parsing of string.c: what itos writes, what stoi reads, and that reading
    undoes writing. */
module Decimal {
  import opened ByteStrings
  import opened Integers

  const MIN_INT: int := -0x8000_0000
  const MAX_INT: int := 0x7FFF_FFFF

  // ----- printing -----

  /** The digits of a number, the most significant first. */
  function Digits(n: nat): (s: seq<byte>)
    ensures |s| > 0
  {
    if n < 10 then [48 + n] else Digits(n / 10) + [48 + n % 10]
  }

  /** The number as it should be written. */
  function DecimalOf(n: int): seq<byte> { if n < 0 then ['-' as int] + Digits(-n) else Digits(n) }

  function Reversed(s: seq<byte>): (r: seq<byte>)
    ensures |r| == |s| && forall k :: 0 <= k < |s| ==> r[k] == s[|s| - 1 - k]
  {
    seq(|s|, k requires 0 <= k < |s| => s[|s| - 1 - k])
  }

  /** Negation in 32-bit two's complement. */
  function Negated(n: int): int { if n == MIN_INT then MIN_INT else -n }

  /** Division and remainder of C, which round towards zero. */
  function Quotient(n: int): int { if n < 0 then -(-n / 10) else n / 10 }

  function Remainder(n: int): int { if n < 0 then -(-n % 10) else n % 10 }

  /** The characters of the digit loop, in the order they are written. */
  function Loop(n: int): (s: seq<byte>)
    requires n == MIN_INT || n >= 0
    decreases if n < 0 then 0 else n
  {
    if Quotient(n) > 0 then [48 + Remainder(n)] + Loop(Quotient(n)) else [48 + Remainder(n)]
  }

  /** itos. */
  function Itos(n: int): seq<byte>
    requires MIN_INT <= n <= MAX_INT
  {
    Reversed(Loop(if n < 0 then Negated(n) else n) + if n < 0 then ['-' as int] else [])
  }

  lemma ReversedConcat(a: seq<byte>, b: seq<byte>)
    ensures Reversed(a + b) == Reversed(b) + Reversed(a)
  {
  }

  lemma {:induction false} LoopIsReversed(n: nat)
    ensures Reversed(Loop(n)) == Digits(n)
    decreases n
  {
    if n >= 10 {
      LoopIsReversed(n / 10);
      ReversedConcat([48 + n % 10], Loop(n / 10));
    }
  }

  function Pow10(k: nat): nat { if k == 0 then 1 else 10 * Pow10(k - 1) }

  lemma {:induction false} LoopIsShort(n: nat, k: nat)
    requires n < Pow10(k) && k > 0
    ensures |Loop(n)| <= k
    decreases k
  {
    if n >= 10 {
      LoopIsShort(n / 10, k - 1);
    }
  }

  lemma {:induction false} LoopHasNoZero(n: int)
    requires n == MIN_INT || n >= 0
    ensures NoZero(Loop(n))
    decreases if n < 0 then 0 else n
  {
    if Quotient(n) > 0 {
      LoopHasNoZero(Quotient(n));
    }
  }

  /** No number takes more than ten digits. */
  lemma LoopFits(n: int)
    requires n == MIN_INT || 0 <= n <= MAX_INT
    ensures |Loop(n)| <= 10 && NoZero(Loop(n))
  {
    LoopHasNoZero(n);
    if n >= 0 {
      assert Pow10(10) == 10000000000;
      LoopIsShort(n, 10);
    }
  }

  lemma LeastLoop()
    ensures Loop(MIN_INT) == ['(' as int]
  {
    assert Remainder(MIN_INT) == -8 && Quotient(MIN_INT) < 0;
  }

  /** itos writes the number as it should be written, except for the least one, for which it
      writes "-(". */
  lemma ItosIsDecimal(n: int)
    requires MIN_INT <= n <= MAX_INT
    ensures n != MIN_INT ==> Itos(n) == DecimalOf(n)
    ensures n == MIN_INT ==> Itos(n) == ['-' as int, '(' as int]
  {
    hide Loop, Digits;
    if n == MIN_INT {
      LeastLoop();
    } else if n < 0 {
      LoopIsReversed(-n);
      ReversedConcat(Loop(-n), ['-' as int]);
    } else {
      LoopIsReversed(n);
      assert Loop(n) + [] == Loop(n);
    }
  }

  predicate IsDigit(b: byte) { '0' as int <= b <= '9' as int }

  /** The output is canonical: digits only, no leading zero but for zero itself, a minus exactly
      in front of negative numbers. */
  lemma {:induction false} DigitsAreCanonical(n: nat)
    ensures forall k :: 0 <= k < |Digits(n)| ==> IsDigit(Digits(n)[k])
    ensures Digits(n)[0] == '0' as int <==> n == 0
    ensures n == 0 ==> |Digits(n)| == 1
    decreases n
  {
    if n >= 10 {
      DigitsAreCanonical(n / 10);
    }
  }

  lemma DecimalIsCanonical(n: int)
    ensures var s := DecimalOf(n);
      && (s[0] == '-' as int <==> n < 0)
      && (forall k :: (if n < 0 then 1 else 0) <= k < |s| ==> IsDigit(s[k]))
      && (s[if n < 0 then 1 else 0] == '0' as int <==> n == 0) && (n == 0 ==> s == ['0' as int])
  {
    DigitsAreCanonical(if n < 0 then -n else n);
  }

  // ----- parsing -----

  /** The number of leading digits. */
  function DigitCount(s: seq<byte>): (k: nat)
    ensures k <= |s| && (forall i :: 0 <= i < k ==> IsDigit(s[i])) && (k < |s| ==> !IsDigit(s[k]))
  {
    if s == [] || !IsDigit(s[0]) then 0 else 1 + DigitCount(s[1..])
  }

  /** The value of a sequence of digits. */
  function Value(s: seq<byte>): int
    decreases |s|
  {
    if s == [] then 0
    else
      var last: int := s[|s| - 1];
      Value(s[..|s| - 1]) * 10 + (last - 48)
  }

  function Magnitude(s: seq<byte>): seq<byte> { if s != [] && s[0] == '-' as int then s[1..] else s }

  /** The number that the text stands for. */
  function NumberOf(s: seq<byte>): int {
    var m := Magnitude(s);
    Value(m[..DigitCount(m)]) * if s != [] && s[0] == '-' as int then -1 else 1
  }

  /** stoi, whose arithmetic wraps around in 32 bits. */
  function Stoi(s: seq<byte>): int { S32(NumberOf(s)) }

  lemma {:induction false} ValueOfDigits(n: nat)
    ensures Value(Digits(n)) == n
    decreases n
  {
    if n >= 10 {
      ValueOfDigits(n / 10);
      assert Digits(n)[..|Digits(n)| - 1] == Digits(n / 10);
    }
  }

  lemma NumberOfDecimal(n: int)
    ensures NumberOf(DecimalOf(n)) == n
  {
    var m: nat := if n < 0 then -n else n;
    DigitsAreCanonical(m);
    ValueOfDigits(m);
    assert Magnitude(DecimalOf(n)) == Digits(m);
    assert Digits(m)[..DigitCount(Digits(m))] == Digits(m);
  }

  /** Reading what was written gives the number back, precisely for all but the least one. */
  lemma RoundTripExactlyWhen(n: int)
    requires MIN_INT <= n <= MAX_INT
    ensures Stoi(Itos(n)) == n <==> n != MIN_INT
  {
    hide S32, Itos, DecimalOf;
    ItosIsDecimal(n);
    if n != MIN_INT {
      NumberOfDecimal(n);
      S32OfInt32(n);
    } else {
      assert NumberOf(['-' as int, '(' as int]) == 0;
      S32OfInt32(0);
    }
  }

  // ----- any text -----

  predicate AllDigits(s: seq<byte>) { forall i :: 0 <= i < |s| ==> IsDigit(s[i]) }

  /** The value by places: each digit counts as often as there are digits behind it powers of ten. */
  function Places(s: seq<byte>): int
    decreases |s|
  {
    if s == [] then 0
    else
      var first: int := s[0];
      (first - 48) * Pow10(|s| - 1) + Places(s[1..])
  }

  lemma {:induction false} PlacesShift(s: seq<byte>, b: byte)
    ensures Places(s + [b]) == 10 * Places(s) + (b as int - 48)
    decreases |s|
  {
    if s == [] {
      assert ([] + [b])[1..] == [];
    } else {
      assert (s + [b])[1..] == s[1..] + [b];
      PlacesShift(s[1..], b);
      var d: int := s[0];
      TimesSum(d - 48, 9 * Pow10(|s| - 1), Pow10(|s| - 1));
      Associates(d - 48, Pow10(|s| - 1), 10);
    }
  }

  lemma {:induction false} ValueIsPlaces(s: seq<byte>)
    ensures Value(s) == Places(s)
    decreases |s|
  {
    if s != [] {
      var t := s[..|s| - 1];
      ValueIsPlaces(t);
      PlacesShift(t, s[|s| - 1]);
      assert t + [s[|s| - 1]] == s;
    }
  }

  lemma {:induction false} CountOf(ds: seq<byte>, tail: seq<byte>)
    requires AllDigits(ds) && (tail == [] || !IsDigit(tail[0]))
    ensures DigitCount(ds + tail) == |ds|
    decreases |ds|
  {
    if ds == [] {
      assert ds + tail == tail;
    } else {
      assert (ds + tail)[1..] == ds[1..] + tail;
      CountOf(ds[1..], tail);
    }
  }

  /** stoi on any text: after at most one minus the digits up to the first other character count by their
      places, in 32 bits, and what follows them does not; without a digit there the result is 0. */
  lemma ReadsTheDigits(negative: bool, ds: seq<byte>, tail: seq<byte>)
    requires AllDigits(ds) && (tail == [] || !IsDigit(tail[0]))
    requires ds == [] && tail != [] && !negative ==> tail[0] != '-' as int
    ensures Stoi(if negative then ['-' as int] + (ds + tail) else ds + tail)
      == S32(if negative then -Places(ds) else Places(ds))
  {
    hide S32, DigitCount, Value, Places;
    CountOf(ds, tail);
    ValueIsPlaces(ds);
    assert (ds + tail)[..|ds|] == ds;
    if negative {
      assert Magnitude(['-' as int] + (ds + tail)) == ds + tail;
    } else {
      assert Magnitude(ds + tail) == ds + tail;
    }
  }
}
