/** The bits of one word of the frame bitmap. */
module FrameBits {
  /** The position of frame `f` in its word, f % 32. */
  function Position(f: nat): bv5 { (f % 32) as bv5 }

  /** 1 << b. */
  function Mask(b: bv5): bv32 { (1 as bv32) << b }

  predicate Test(w: bv32, m: bv32) { w & m != 0 }

  lemma SetOther(w: bv32, b: bv5, c: bv5)
    requires b != c
    ensures Test(w | Mask(b), Mask(c)) == Test(w, Mask(c))
  {
    assert (w | Mask(b)) & Mask(c) == w & Mask(c);
  }

  lemma ClearOther(w: bv32, b: bv5, c: bv5)
    requires b != c
    ensures Test(w & !Mask(b), Mask(c)) == Test(w, Mask(c))
  {
    assert (w & !Mask(b)) & Mask(c) == w & Mask(c);
  }

  lemma SetSame(w: bv32, b: bv5)
    ensures Test(w | Mask(b), Mask(b))
  {
    assert (w | Mask(b)) & Mask(b) == Mask(b);
    assert Mask(b) != 0;
  }

  lemma ClearSame(w: bv32, b: bv5)
    ensures !Test(w & !Mask(b), Mask(b))
  {
    assert (w & !Mask(b)) & Mask(b) == 0;
  }

  lemma PositionRoundTrip(f: nat)
    ensures Position(f) as nat == f % 32
  {
  }

  lemma PositionInjective(f: nat, g: nat)
    requires f % 32 != g % 32
    ensures Position(f) != Position(g)
  {
    PositionRoundTrip(f);
    PositionRoundTrip(g);
    hide Position;
    assert Position(f) as nat != Position(g) as nat;
  }
}
