/** What name formatting makes of an 8.3 name, and which names it takes for the same. */
module Fat16Names {
  import opened ByteStrings
  import opened Fat16
  import opened Fat16Files
  import opened Fat16RoundTrip
  import opened Tokens

  const BLANK: byte := ' ' as int

  /** A part of a name: no dot, no blank, at most `n` characters. */
  predicate Part(s: seq<byte>, n: nat) { |s| <= n && Without(s, DOT) && Without(s, BLANK) && NoZero(s) }

  /** The part before the dot becomes the name, the part behind it the extension. */
  lemma FormatsParts(base: seq<byte>, ext: seq<byte>)
    requires Part(base, 8) && Part(ext, 3) && base != []
    ensures FormatName(base + [DOT] + ext) == Padded(base, 8) + Padded(ext, 3)
    ensures FormatName(base) == Padded(base, 8) + Padded([], 3)
    ensures |base + [DOT] + ext| < 64
  {
    var s := base + [DOT] + ext;
    assert s == base + ([DOT] + ext) && Skip(s, DOT) == s;
    UpToOf(base, [DOT] + ext, DOT);
    assert AfterToken(s, DOT) == ext;
    assert Skip(ext, DOT) == ext && ext + [] == ext;
    UpToOf(ext, [], DOT);
    assert Skip(base, DOT) == base && base + [] == base;
    UpToOf(base, [], DOT);
    assert AfterToken(base, DOT) == [] && Token([], DOT) == [];
  }

  /** Equal but for the case of letters. */
  predicate SameLetters(s: seq<byte>, t: seq<byte>) {
    |s| == |t| && forall i :: 0 <= i < |s| ==> Upper(s[i]) == Upper(t[i])
  }

  lemma PaddedAgree(s: seq<byte>, t: seq<byte>, n: nat)
    requires Part(s, n) && Part(t, n)
    ensures Padded(s, n) == Padded(t, n) <==> SameLetters(s, t)
  {
    if |s| != |t| {
      var i := if |s| < |t| then |s| else |t|;
      assert Padded(s, n)[i] != Padded(t, n)[i];
    } else if !SameLetters(s, t) {
      var i :| 0 <= i < |s| && Upper(s[i]) != Upper(t[i]);
      assert Padded(s, n)[i] != Padded(t, n)[i];
    }
  }

  /** Two 8.3 names are taken for the same file exactly when they differ in case at most. */
  lemma NamesAgreeExactlyWhen(base: seq<byte>, ext: seq<byte>, base': seq<byte>, ext': seq<byte>)
    requires Part(base, 8) && Part(ext, 3) && Part(base', 8) && Part(ext', 3) && base != [] && base' != []
    ensures FormatName(base + [DOT] + ext) == FormatName(base' + [DOT] + ext')
      <==> SameLetters(base, base') && SameLetters(ext, ext')
  {
    FormatsParts(base, ext);
    FormatsParts(base', ext');
    PaddedAgree(base, base', 8);
    PaddedAgree(ext, ext', 3);
    hide FormatName, Padded;
    var p, q, p', q' := Padded(base, 8), Padded(ext, 3), Padded(base', 8), Padded(ext', 3);
    SameHalves(p, q, p', q');
  }

  lemma SameHalves(p: seq<byte>, q: seq<byte>, p': seq<byte>, q': seq<byte>)
    requires |p| == |p'|
    ensures p + q == p' + q' <==> p == p' && q == q'
  {
    if p + q == p' + q' {
      assert p == (p + q)[..|p|] == p';
      assert q == (p + q)[|p|..] == q';
    }
  }

  // ----- names under which a written file is not found -----

  lemma OneCharacterName(b: byte)
    requires Part([b], 8)
    ensures ShortName([b]) && FormatName([b])[0] == Upper(b)
  {
    var s: seq<byte> := [b];
    assert Skip(s, DOT) == s && s + [] == s;
    UpToOf(s, [], DOT);
    assert AfterToken(s, DOT) == [] && Token([], DOT) == [];
    FormatsParts(s, []);
  }

  /** On every volume with a free cluster, files by the names 0xE5 and / are written, take a cluster
      each, and are not found. */
  lemma LostNames(v: Volume, data: seq<byte>, b: byte)
    requires GoodGeometry(v.geo) && |data| < 0x8000_0000 && CanWrite(v) && b in {0xE5, 0x2F}
    ensures ShortName([b])
    ensures var w := WriteFile(v, [b], data);
      Entry(w, FreeCluster(v)) == END_OF_CHAIN && !FindFile(w, [b]).Found?
  {
    hide FormatName, WriteFile, FreeCluster, Entry, FindFrom, Skip, UpTo;
    OneCharacterName(b);
    WriteIs(v, [b], data, 2);
    if b == 0xE5 {
      DeletedIsNotFound(v, FormatName([b]), 0);
      WrittenIsFoundExactlyWhen(v, [b], data);
    }
  }
}
