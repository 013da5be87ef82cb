/** What the frame allocator grants and takes back. */
module FrameAllocator {
  import opened FiniteSets
  import opened PageTables
  import Isolation

  /** allocate_frame grants the lowest free frame from 1 to 32767 and marks that one alone; it
      returns 0, and marks nothing, exactly when there is none. */
  lemma GrantIsLowest(m: Mem)
    ensures Alloc(m).f == 0 <==> forall g :: 1 <= g < 32768 ==> g in m.used
    ensures Alloc(m).f != 0 ==> Alloc(m).f < 32768 && Alloc(m).f !in m.used
    ensures forall g :: 1 <= g < Alloc(m).f ==> g in m.used
    ensures forall g :: g in Alloc(m).m.used <==> g in m.used || (g == Alloc(m).f && g != 0)
    ensures Alloc(m).m.pages == m.pages && Alloc(m).m.exhausted == (m.exhausted || Alloc(m).f == 0)
  {
    var f := LowestFree(m.used, 1);
    assert f == 0 ==> forall g :: 1 <= g < 32768 ==> g in m.used;
  }

  /** free_frame releases that frame and no other, and never frame 0; freeing what was just granted
      restores the bitmap, and a freed frame is granted again unless a lower one is free. */
  lemma FreedIsGrantedAgain(m: Mem, f: Hi)
    ensures forall g :: g in Free(m, f).used <==> g in m.used && (g != f || g == 0)
    ensures Free(Alloc(m).m, Alloc(m).f).used == m.used
    ensures 0 < f < 32768 ==> 0 < Alloc(Free(m, f)).f <= f
    ensures 0 < f < 32768 && f in m.used && (Alloc(m).f == 0 || f < Alloc(m).f) ==> Alloc(Free(m, f)).f == f
  {
    GrantIsLowest(m);
    GrantIsLowest(Free(m, f));
  }

  /** The memory after `n` calls of allocate_frame. */
  function Taken(m: Mem, n: nat): Mem
    decreases n, m
  {
    if n == 0 then m else Taken(Alloc(m).m, n - 1)
  }

  lemma GrantIsNext(pages: Ram, k: nat)
    requires 1 <= k < 32768
    ensures Alloc(Mem(pages, Range(0, k), false)).m == Mem(pages, Range(0, k + 1), false)
  {
    var m := Mem(pages, Range(0, k), false);
    hide Range;
    RangeIs(0, k);
    RangeIs(0, k + 1);
    GrantIsLowest(m);
    assert k !in m.used && Alloc(m).f == k;
    assert Range(0, k + 1) == m.used + {k};
  }

  lemma {:induction false} TakesInOrder(pages: Ram, k: nat, n: nat)
    requires 1 <= k && k + n <= 32768
    ensures Taken(Mem(pages, Range(0, k), false), n) == Mem(pages, Range(0, k + n), false)
    decreases n
  {
    hide Range, Alloc;
    if n > 0 {
      GrantIsNext(pages, k);
      TakesInOrder(pages, k + 1, n - 1);
    }
  }

  /** Boot calls allocate_frame once for each page from address 0 up to 0x400000, with frame 0 taken
      already: the runs of the address spaces begin with frames 0 to 1024 in use and the rest free. */
  lemma BootTakes(pages: Ram)
    ensures Isolation.Boot(pages).mem == Taken(Mem(pages, {0}, false), 0x400000 / 4096)
    ensures forall f: nat :: f in Isolation.Boot(pages).mem.used <==> f <= 1024
  {
    hide Range, Taken;
    RangeIs(0, 1);
    assert Range(0, 1) == {0};
    RangeIs(0, 1025);
    TakesInOrder(pages, 1, 1024);
  }
}
