/** Splitting a string at a delimiter, as strtok of string.c does it. */
module Tokens {
  import opened ByteStrings

  function Skip(s: seq<byte>, delim: byte): (r: seq<byte>)
    ensures |r| <= |s|
  {
    if s != [] && s[0] == delim then Skip(s[1..], delim) else s
  }

  function UpTo(s: seq<byte>, delim: byte): (r: seq<byte>)
    ensures |r| <= |s| && r == s[..|r|]
  {
    if s == [] || s[0] == delim then [] else [s[0]] + UpTo(s[1..], delim)
  }

  /** The next token, and what is left behind the delimiter that ends it. */
  function Token(s: seq<byte>, delim: byte): seq<byte> { UpTo(Skip(s, delim), delim) }

  function AfterToken(s: seq<byte>, delim: byte): seq<byte> {
    var t, n := Skip(s, delim), |Token(s, delim)|;
    if n < |t| then t[n + 1..] else []
  }

  predicate Without(s: seq<byte>, b: byte) { forall i :: 0 <= i < |s| ==> s[i] != b }

  /** A string is delimiters, then the token, then nothing or one delimiter and the rest; and the
      token is empty only when no delimiter or other character follows. */
  lemma TokenSplits(s: seq<byte>, delim: byte)
    ensures var k := |s| - |Skip(s, delim)|;
      var n := k + |Token(s, delim)|;
      && n <= |s| && (forall i :: 0 <= i < k ==> s[i] == delim)
      && s[k..n] == Token(s, delim) && Without(Token(s, delim), delim)
      && (if n == |s| then AfterToken(s, delim) == [] else s[n] == delim && s[n + 1..] == AfterToken(s, delim))
      && (Token(s, delim) == [] <==> k == |s|)
  {
    SkipIs(s, delim);
    UpToIs(Skip(s, delim), delim);
    hide Skip, UpTo;
    var t, u := Skip(s, delim), Token(s, delim);
    var k := |s| - |t|;
    assert s == s[..k] + t;
    assert s[k..k + |u|] == t[..|u|];
    if |u| < |t| {
      assert s[k + |u|] == t[|u|] && s[k + |u| + 1..] == t[|u| + 1..];
    }
  }

  lemma {:induction false} SkipIs(s: seq<byte>, delim: byte)
    ensures var r := Skip(s, delim);
      && r == s[|s| - |r|..] && (forall i :: 0 <= i < |s| - |r| ==> s[i] == delim) && (r != [] ==> r[0] != delim)
    decreases |s|
  {
    if s != [] && s[0] == delim {
      SkipIs(s[1..], delim);
    }
  }

  lemma {:induction false} UpToIs(s: seq<byte>, delim: byte)
    ensures var r := UpTo(s, delim);
      r == s[..|r|] && Without(r, delim) && (|r| < |s| ==> s[|r|] == delim)
    decreases |s|
  {
    if s != [] && s[0] != delim {
      UpToIs(s[1..], delim);
    }
  }

  /** The token ends where the delimiter first stands, or with the string. */
  lemma {:induction false} UpToOf(s: seq<byte>, tail: seq<byte>, delim: byte)
    requires Without(s, delim) && (tail == [] || tail[0] == delim)
    ensures UpTo(s + tail, delim) == s
    decreases |s|
  {
    if s == [] {
      assert s + tail == tail;
    } else {
      assert (s + tail)[1..] == s[1..] + tail;
      UpToOf(s[1..], tail, delim);
    }
  }

  lemma TokenHasNoZero(s: seq<byte>, delim: byte)
    requires NoZero(s)
    ensures NoZero(Token(s, delim)) && NoZero(AfterToken(s, delim))
  {
    SkipIs(s, delim);
  }
}
