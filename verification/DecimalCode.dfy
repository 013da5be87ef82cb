/** strrev, itos and stoi in their own form, on character buffers (string.c). */
module DecimalCode {
  import opened ByteStrings
  import opened Decimal
  import opened Integers

  method Strlen(str: array<byte>, ghost s: seq<byte>) returns (len: nat)
    requires Holds(str[..], 0, s)
    ensures len == |s|
  {
    len := 0;
    HoldsAt(str[..], 0, s, 0);
    while str[len] != 0
      invariant len <= |s| && len < str.Length
      decreases |s| - len
    {
      HoldsAt(str[..], 0, s, len);
      len := len + 1;
      HoldsAt(str[..], 0, s, len);
    }
    HoldsAt(str[..], 0, s, len);
  }

  /** strrev. */
  method Strrev(str: array<byte>, ghost s: seq<byte>)
    requires Holds(str[..], 0, s)
    modifies str
    ensures Holds(str[..], 0, Reversed(s)) && str[|s|..] == old(str[|s|..])
  {
    var len := Strlen(str, s);
    InBuffer(str[..], 0, s);
    forall k | 0 <= k < len
      ensures str[k] == s[k]
    {
      HoldsAt(str[..], 0, s, k);
    }
    for i := 0 to len / 2
      invariant forall k :: 0 <= k < str.Length ==>
        str[k] == if k < i || len - 1 - i < k < len then old(str[len - 1 - k]) else old(str[k])
    {
      str[i], str[len - 1 - i] := str[len - 1 - i], str[i];
    }
    assert str[0..len] == Reversed(s);
  }

  /** The digit loop of itos; `i` characters are written. The two operators are C's. */
  method WriteDigits(result: array<byte>, m: int32) returns (i: nat)
    requires m as int == MIN_INT || m >= 0
    requires |Loop(m as int)| <= result.Length
    modifies result
    ensures i == |Loop(m as int)| && result[..i] == Loop(m as int)
  {
    hide Loop;
    var n := m;
    i := 0;
    var more := true;
    ghost var written: seq<byte> := [];
    while more
      invariant i <= |Loop(m as int)| && result[..i] == written
      invariant more ==> (n >= 0 || n as int == MIN_INT) && Loop(m as int) == written + Loop(n as int)
      invariant !more ==> Loop(m as int) == written
      decreases more, if n < 0 then 0 else n as int
    {
      LoopStep(written, n as int);
      result[i] := 48 + Remainder(n as int);
      written := written + [48 + Remainder(n as int)];
      i := i + 1;
      n := Quotient(n as int) as int32;
      more := n > 0;
    }
  }

  lemma LoopStep(written: seq<byte>, n: int)
    requires n == MIN_INT || n >= 0
    ensures var next := written + [48 + Remainder(n)];
      && |written| < |written + Loop(n)| && (Quotient(n) <= 0 || Quotient(n) < n)
      && written + Loop(n) == if Quotient(n) > 0 then next + Loop(Quotient(n)) else next
  {
    if Quotient(n) > 0 {
      assert written + Loop(n) == written + ([48 + Remainder(n)] + Loop(Quotient(n)));
    }
  }

  /** itos; negation wraps around for the least number. */
  method WriteDecimal(result: array<byte>, n: int32)
    requires result.Length >= 12
    modifies result
    ensures Holds(result[..], 0, Itos(n as int))
  {
    hide Loop;
    var negative := n < 0;
    var m := if negative then (if n as int == MIN_INT then n else -n) else n;
    LoopFits(m as int);
    var i := WriteDigits(result, m);
    ghost var s := Loop(m as int);
    if negative {
      result[i] := '-' as int;
      i := i + 1;
      s := s + ['-' as int];
    }
    assert result[..i] == s && NoZero(s);
    result[i] := 0;
    assert result[0..i] == s;
    assert negative || Loop(m as int) + [] == s;
    Strrev(result, s);
  }

  /** stoi; a partial result that leaves 32 bits wraps around. */
  method ReadDecimal(str: array<byte>, ghost s: seq<byte>) returns (r: int32)
    requires Holds(str[..], 0, s)
    ensures r as int == Stoi(s)
  {
    hide Value, DigitCount, S32;
    var result: int32 := 0;
    var i: nat := 0;
    var sign: int32 := 1;
    HoldsAt(str[..], 0, s, 0);
    if str[0] == '-' as int {
      sign := -1;
      i := 1;
    }
    ghost var m, k := Magnitude(s), 0;
    ghost var start := i;
    HoldsAt(str[..], 0, s, start);
    NoDigits(m);
    while '0' as int <= str[i] <= '9' as int
      invariant i == start + k && k <= DigitCount(m) <= |m| && i < str.Length
      invariant result as int == S32(Value(m[..k]))
      decreases |m| - k
    {
      HoldsAt(str[..], start, m, k);
      NextDigit(m, k);
      var c: int := str[i];
      var digit := c - 48;
      WrappedStep(Value(m[..k]), digit);
      result := Wrapped(result as int * 10 + digit);
      i := i + 1;
      k := k + 1;
      HoldsAt(str[..], start, m, k);
    }
    HoldsAt(str[..], start, m, k);
    LastDigit(m, k);
    WrappedSign(Value(m[..k]), sign as int);
    r := Wrapped(result as int * sign as int);
  }

  function Wrapped(x: int): (r: int32)
    ensures r as int == S32(x)
  {
    S32(x) as int32
  }

  /** Reducing a partial result first makes no difference. */
  lemma WrappedStep(v: int, d: int)
    ensures S32(S32(v) * 10 + d) == S32(v * 10 + d)
  {
    SameWrapped(v * 10 + d, S32(v) * 10 + d, (v - S32(v)) / TWO_32 * 10);
  }

  lemma WrappedSign(v: int, sign: int)
    requires sign == 1 || sign == -1
    ensures S32(S32(v) * sign) == S32(v * sign)
  {
    SameWrapped(v * sign, S32(v) * sign, (v - S32(v)) / TWO_32 * sign);
  }

  lemma SameWrapped(x: int, y: int, q: int)
    requires x == y + q * TWO_32
    ensures S32(x) == S32(y)
  {
  }

  lemma NoDigits(m: seq<byte>)
    ensures S32(Value(m[..0])) == 0 && DigitCount(m) <= |m|
  {
  }

  /** Another digit is part of the number. */
  lemma NextDigit(m: seq<byte>, k: nat)
    requires k <= DigitCount(m) && k < |m| && IsDigit(m[k])
    ensures k < DigitCount(m)
    ensures var d: int := m[k]; Value(m[..k + 1]) == Value(m[..k]) * 10 + (d - 48)
  {
    assert m[..k + 1][..k] == m[..k];
  }

  lemma LastDigit(m: seq<byte>, k: nat)
    requires k <= DigitCount(m) <= |m| && (k < |m| ==> !IsDigit(m[k]))
    ensures k == DigitCount(m)
  {
  }
}
