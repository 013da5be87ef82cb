/** strtok (string.c) and the name formatting of fat16.c that uses it. */
module CStrings {
  import opened ByteStrings
  import opened Fat16
  import opened Tokens

  /** The static pointer of strtok: a position in a buffer, or NULL. */
  class Tokenizer {
    var buffer: array?<byte>
    var position: nat

    constructor ()
      ensures buffer == null
    {
      buffer, position := null, 0;
    }

    /** The pointer is at the string `s`; NULL counts as at an empty one. */
    ghost predicate At(s: seq<byte>)
      reads this, buffer
    {
      if buffer == null then s == [] else Holds(buffer[..], position, s)
    }

    /** strtok. `str` restarts it, NULL lets it go on; `s` is the string still to be split. */
    method Strtok(dest: array<byte>, str: array?<byte>, delim: byte, ghost s: seq<byte>) returns (found: bool)
      requires if str == null then At(s) else Holds(str[..], 0, s)
      requires dest != str && dest != buffer && |Token(s, delim)| < dest.Length
      modifies this, dest
      ensures found <==> Token(s, delim) != []
      ensures dest[..] == Token(s, delim) + [0] + old(dest[|Token(s, delim)| + 1..])
      ensures buffer == (if str == null then old(buffer) else str) && At(AfterToken(s, delim))
    {
      hide Skip, UpTo, Holds;
      if str != null {
        buffer, position := str, 0;
      }
      NoToken(delim);
      if buffer != null {
        HoldsTail(buffer[..], position, s);
        InBuffer(buffer[..], position, s);
      }
      if buffer == null || buffer[position] == 0 {
        dest[0] := 0;
        return false;
      }
      SkipDelimiters(delim, s);
      ghost var t := Skip(s, delim);
      var i := CopyToken(dest, delim, t);
      PassDelimiter(t[i..]);
      RestOf(s, delim, t, i);
      dest[i] := 0;
      assert dest[..i] == Token(s, delim) && dest[i + 1..] == old(dest[i + 1..]);
      return i > 0;
    }

    /** The step over the delimiter that ends the token. */
    method PassDelimiter(ghost t: seq<byte>)
      requires buffer != null && At(t)
      modifies `position
      ensures At(if t == [] then [] else t[1..])
    {
      HoldsTail(buffer[..], position, t);
      if buffer[position] != 0 {
        position := position + 1;
      }
    }

    /** The first loop of strtok. */
    method SkipDelimiters(delim: byte, ghost s: seq<byte>)
      requires buffer != null && At(s) && s != []
      modifies `position
      ensures At(Skip(s, delim))
    {
      ghost var t := s;
      HoldsTail(buffer[..], position, t);
      while buffer[position] == delim
        invariant At(t) && Skip(t, delim) == Skip(s, delim)
        invariant t != [] || delim != 0
        decreases |t|
      {
        HoldsTail(buffer[..], position, t);
        t := t[1..];
        position := position + 1;
        HoldsTail(buffer[..], position, t);
      }
      HoldsTail(buffer[..], position, t);
    }

    /** The second loop; the pointer stops behind the token. */
    method CopyToken(dest: array<byte>, delim: byte, ghost t: seq<byte>) returns (i: nat)
      requires buffer != null && dest != buffer && At(t) && |UpTo(t, delim)| < dest.Length
      modifies `position, dest
      ensures i == |UpTo(t, delim)| && dest[..i] == UpTo(t, delim) && dest[i..] == old(dest[i..])
      ensures At(t[i..])
    {
      hide UpTo, Holds;
      i := 0;
      ghost var start := position;
      HoldsAt(buffer[..], start, t, 0);
      InBuffer(buffer[..], start, t);
      while buffer[position] != 0 && buffer[position] != delim
        invariant position == start + i && i <= |t| && i <= |UpTo(t, delim)|
        invariant forall k :: 0 <= k < i ==> t[k] != delim
        invariant forall k :: 0 <= k < dest.Length ==> dest[k] == if k < i then t[k] else old(dest[k])
        decreases |t| - i
      {
        HoldsAt(buffer[..], start, t, i);
        HoldsAt(buffer[..], start, t, i + 1);
        UpToAt(t, delim, i);
        dest[i] := buffer[position];
        i := i + 1;
        position := position + 1;
      }
      HoldsAt(buffer[..], start, t, i);
      if i < |t| {
        UpToAt(t, delim, i);
      } else {
        UpToOf(t, [], delim);
        assert t + [] == t;
      }
    }
  }

  lemma NoToken(delim: byte)
    ensures Token([], delim) == [] && AfterToken([], delim) == []
  {
  }

  /** What is left when the token of length `i` has been read and the delimiter passed. */
  lemma RestOf(s: seq<byte>, delim: byte, t: seq<byte>, i: nat)
    requires t == Skip(s, delim) && i == |UpTo(t, delim)|
    ensures i == |Token(s, delim)| && AfterToken(s, delim) == if t[i..] == [] then [] else t[i..][1..]
  {
  }

  lemma {:induction false} UpToAt(t: seq<byte>, delim: byte, k: nat)
    requires k < |t| && forall i :: 0 <= i < k ==> t[i] != delim
    ensures |UpTo(t, delim)| >= k && (t[k] == delim <==> |UpTo(t, delim)| == k)
    ensures UpTo(t, delim) == t[..|UpTo(t, delim)|]
    decreases k
  {
    if k > 0 {
      UpToAt(t[1..], delim, k - 1);
    }
  }

  /** The loops of fat16_format_name: the string in `src` in capitals, padded with blanks. */
  method Pad(src: array<byte>, out: array<byte>, n: nat, ghost t: seq<byte>)
    requires src != out && n == out.Length && n < src.Length && Holds(src[..], 0, t) && |t| <= n
    modifies out
    ensures out[..] == Padded(t, n)
  {
    var ended := false;
    for i := 0 to n
      invariant ended <==> i > |t|
      invariant forall k :: 0 <= k < i ==> out[k] == Padded(t, n)[k]
    {
      if i <= |t| {
        HoldsAt(src[..], 0, t, i);
      }
      if !ended && src[i] != 0 {
        out[i] := if 'a' as int <= src[i] <= 'z' as int then src[i] - 32 else src[i];
      } else {
        ended := true;
        out[i] := ' ' as int;
      }
    }
  }

  method Strcpy(dest: array<byte>, src: array<byte>, ghost s: seq<byte>)
    requires dest != src && Holds(src[..], 0, s) && |s| < dest.Length
    modifies dest
    ensures Holds(dest[..], 0, s)
  {
    var i := 0;
    while src[i] != 0
      invariant i <= |s| && dest[..i] == s[..i]
      decreases |s| - i
    {
      HoldsAt(src[..], 0, s, i);
      dest[i] := src[i];
      i := i + 1;
    }
    HoldsAt(src[..], 0, s, i);
    dest[i] := 0;
  }

  /** fat16_format_name; its first call of strtok restarts the static pointer, so that nothing of
      earlier calls is used. */
  method FormatNameInto(input: array<byte>, nameOut: array<byte>, extOut: array<byte>, ghost s: seq<byte>)
    requires nameOut.Length == 8 && extOut.Length == 3 && nameOut != extOut
    requires Holds(input[..], 0, s) && ShortName(s)
    modifies nameOut, extOut
    ensures nameOut[..] + extOut[..] == FormatName(s)
  {
    hide Skip, UpTo, Token, AfterToken, Padded;
    var temp := new byte[64];
    Strcpy(temp, input, s);
    var name, ext := new byte[9](_ => 0), new byte[4](_ => 0);
    ghost var rest := AfterToken(s, DOT);
    ghost var t, u := Token(s, DOT), Token(rest, DOT);
    var tokens := new Tokenizer();
    var _ := tokens.Strtok(name, temp, DOT, s);
    var _ := tokens.Strtok(ext, null, DOT, rest);
    TokenHasNoZero(s, DOT);
    TokenHasNoZero(rest, DOT);
    assert Holds(name[..], 0, t);
    assert Holds(ext[..], 0, u);
    Pad(name, nameOut, 8, t);
    Pad(ext, extOut, 3, u);
  }
}
