/** Bytes, and NUL-terminated strings in buffers of them. */
module ByteStrings {
  type byte = x: int | 0 <= x < 256

  predicate NoZero(s: seq<byte>) { forall i :: 0 <= i < |s| ==> s[i] != 0 }

  /** At index `i` the buffer holds the string `s`. */
  predicate Holds(a: seq<byte>, i: nat, s: seq<byte>) {
    i + |s| < |a| && a[i..i + |s|] == s && a[i + |s|] == 0 && NoZero(s)
  }

  lemma HoldsTail(a: seq<byte>, i: nat, s: seq<byte>)
    requires Holds(a, i, s)
    ensures a[i] == if s == [] then 0 else s[0]
    ensures s != [] ==> a[i] != 0 && Holds(a, i + 1, s[1..])
  {
    if s != [] {
      assert a[i..i + |s|][0] == s[0];
      assert a[i + 1..i + |s|] == a[i..i + |s|][1..];
    }
  }

  lemma HoldsAt(a: seq<byte>, i: nat, s: seq<byte>, k: nat)
    requires Holds(a, i, s) && k <= |s|
    ensures a[i + k] == 0 <==> k == |s|
    ensures k < |s| ==> a[i + k] == s[k]
    ensures Holds(a, i + k, s[k..])
  {
    assert k < |s| ==> a[i..i + |s|][k] == s[k];
    assert a[i + k..i + |s|] == a[i..i + |s|][k..];
  }

  lemma InBuffer(a: seq<byte>, i: nat, s: seq<byte>)
    requires Holds(a, i, s)
    ensures i + |s| < |a|
  {
  }
}
