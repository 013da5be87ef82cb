/** The kernel heap on values: the list of block headers in the order of their `next` pointers
    (kmalloc.c). */
module KernelHeap {
  import opened Integers

  const HEADER: nat := 12
  const HEAP_START: nat := 0x100000
  const HEAP_SIZE: nat := 0x300000
  const HEAP_END: nat := HEAP_START + HEAP_SIZE

  datatype Block = Block(addr: nat, size: nat, free: bool)

  function End(b: Block): nat { b.addr + HEADER + b.size }

  function Payload(b: Block): nat { b.addr + HEADER }

  // ----- the operations -----

  function InitialHeap(): seq<Block> { [Block(HEAP_START, HEAP_SIZE - HEADER, true)] }

  /** The first block that is free and larger than the request, or the length of the list. */
  function FirstFit(bs: seq<Block>, req: nat): (i: nat)
    ensures i <= |bs|
    ensures i < |bs| ==> bs[i].free && bs[i].size > req
    ensures forall k :: 0 <= k < i ==> !(bs[k].free && bs[k].size > req)
  {
    if bs == [] || (bs[0].free && bs[0].size > req) then 0 else 1 + FirstFit(bs[1..], req)
  }

  /** split_block's unsigned subtraction. */
  function Remaining(b: Block, req: nat): nat { U32(b.size - req - HEADER) }

  function Split(b: Block, req: nat): seq<Block> {
    var used := Block(b.addr, req, false);
    if Remaining(b, req) < HEADER * 3 then [used]
    else [used, Block(b.addr + HEADER + req, Remaining(b, req), true)]
  }

  function Malloc(bs: seq<Block>, req: nat): seq<Block> {
    var i := FirstFit(bs, req);
    if req == 0 || i == |bs| then bs else bs[..i] + Split(bs[i], req) + bs[i + 1..]
  }

  /** The pointer kmalloc returns. */
  function MallocResult(bs: seq<Block>, req: nat): nat {
    var i := FirstFit(bs, req);
    if req == 0 || i == |bs| then 0 else Payload(bs[i])
  }

  function Merge(a: Block, b: Block): Block { a.(size := U32(a.size + b.size + HEADER)) }

  function Coalesce(bs: seq<Block>): seq<Block>
    decreases |bs|
  {
    if |bs| < 2 then bs
    else if bs[0].free && bs[1].free then Coalesce([Merge(bs[0], bs[1])] + bs[2..])
    else [bs[0]] + Coalesce(bs[1..])
  }

  /** The block whose header lies before `ptr`, or the length of the list. */
  function BlockOf(bs: seq<Block>, ptr: nat): (i: nat)
    ensures i <= |bs|
    ensures i < |bs| ==> Payload(bs[i]) == ptr
    ensures forall k :: 0 <= k < i ==> Payload(bs[k]) != ptr
  {
    if bs == [] || Payload(bs[0]) == ptr then 0 else 1 + BlockOf(bs[1..], ptr)
  }

  function Free(bs: seq<Block>, ptr: nat): seq<Block> {
    var i := BlockOf(bs, ptr);
    if ptr == 0 || i == |bs| then bs else Coalesce(bs[i := bs[i].(free := true)])
  }

  // ----- the invariant -----

  /** The blocks lie one after another between `lo` and `hi`, possibly with gaps. */
  predicate Fits(bs: seq<Block>, lo: nat, hi: nat)
    decreases |bs|
  {
    if bs == [] then lo <= hi else lo <= bs[0].addr && Fits(bs[1..], End(bs[0]), hi)
  }

  predicate NoFreeNeighbours(bs: seq<Block>) {
    forall i :: 0 <= i < |bs| - 1 ==> !(bs[i].free && bs[i + 1].free)
  }

  predicate Inv(bs: seq<Block>) {
    bs != [] && bs[0].addr == HEAP_START && Fits(bs, HEAP_START, HEAP_END) && NoFreeNeighbours(bs)
  }

  function Total(bs: seq<Block>): nat
    decreases |bs|
  {
    if bs == [] then 0 else bs[0].size + HEADER + Total(bs[1..])
  }

  /** What a caller may touch: the blocks handed out. */
  ghost function Used(bs: seq<Block>): set<Block> { set b | b in bs && !b.free }

  // ----- lists of blocks -----

  function LastEnd(bs: seq<Block>, lo: nat): nat { if bs == [] then lo else End(bs[|bs| - 1]) }

  lemma {:induction false} FitsConcat(a: seq<Block>, b: seq<Block>, lo: nat, hi: nat)
    ensures Fits(a + b, lo, hi) <==> Fits(a, lo, LastEnd(a, lo)) && Fits(b, LastEnd(a, lo), hi)
    decreases |a|
  {
    if a == [] {
      assert a + b == b;
    } else {
      assert (a + b)[1..] == a[1..] + b;
      FitsConcat(a[1..], b, End(a[0]), hi);
    }
  }

  lemma {:induction false} FitsBounds(bs: seq<Block>, lo: nat, hi: nat, i: nat)
    requires Fits(bs, lo, hi) && i < |bs|
    ensures lo <= bs[i].addr && End(bs[i]) <= hi
    ensures i + 1 < |bs| ==> End(bs[i]) <= bs[i + 1].addr
    decreases |bs|
  {
    if i == 0 {
      if |bs| > 1 {
        FitsBounds(bs[1..], End(bs[0]), hi, 0);
      }
    } else {
      FitsBounds(bs[1..], End(bs[0]), hi, i - 1);
    }
  }

  /** Blocks are in address order and do not overlap. */
  lemma {:induction false} FitsOrdered(bs: seq<Block>, lo: nat, hi: nat, i: nat, j: nat)
    requires Fits(bs, lo, hi) && i < j < |bs|
    ensures End(bs[i]) <= bs[j].addr
    decreases j
  {
    FitsBounds(bs, lo, hi, j - 1);
    if i < j - 1 {
      FitsOrdered(bs, lo, hi, i, j - 1);
    }
  }

  lemma {:induction false} TotalConcat(a: seq<Block>, b: seq<Block>)
    ensures Total(a + b) == Total(a) + Total(b)
    decreases |a|
  {
    if a == [] {
      assert a + b == b;
    } else {
      assert (a + b)[1..] == a[1..] + b;
      TotalConcat(a[1..], b);
    }
  }

  // ----- kmalloc -----

  /** The request leaves room for a header in the block it is given. */
  predicate Roomy(bs: seq<Block>, req: nat) {
    var i := FirstFit(bs, req);
    req == 0 || i == |bs| || bs[i].size >= req + HEADER
  }

  /** The bytes that an allocation without a split loses. */
  function Slack(bs: seq<Block>, req: nat): nat {
    var i := FirstFit(bs, req);
    if req == 0 || i == |bs| || bs[i].size - req >= 4 * HEADER then 0 else bs[i].size - req
  }

  lemma SplitFits(b: Block, req: nat, lo: nat)
    requires HEADER <= b.size - req < TWO_32 && lo <= b.addr
    ensures Fits(Split(b, req), lo, End(b))
    ensures Total(Split(b, req)) == b.size + HEADER - (if b.size - req >= 4 * HEADER then 0 else b.size - req)
  {
    var s := Split(b, req);
    assert Remaining(b, req) == b.size - req - HEADER;
    if b.size - req < 4 * HEADER {
      assert s == [Block(b.addr, req, false)];
    } else {
      assert s[1..] == [s[1]];
      assert Total([s[1]]) == s[1].size + HEADER;
    }
  }

  /** Replacing one block by what fits into its place. */
  lemma ReplaceFits(bs: seq<Block>, i: nat, mid: seq<Block>, lo: nat, hi: nat)
    requires i < |bs| && Fits(bs, lo, hi) && mid != []
    requires mid[0].addr == bs[i].addr && Fits(mid, bs[i].addr, End(bs[i]))
    ensures Fits(bs[..i] + mid + bs[i + 1..], lo, hi)
  {
    hide Fits;
    var a, c := bs[..i], bs[i + 1..];
    assert bs == a + ([bs[i]] + c);
    ReplaceBetween(a, bs[i], c, mid, lo, hi);
    assert a + mid + c == a + (mid + c);
  }

  lemma ReplaceBetween(a: seq<Block>, b: Block, c: seq<Block>, mid: seq<Block>, lo: nat, hi: nat)
    requires Fits(a + ([b] + c), lo, hi) && mid != []
    requires mid[0].addr == b.addr && Fits(mid, b.addr, End(b))
    ensures Fits(a + (mid + c), lo, hi)
  {
    FitsConcat(a, [b] + c, lo, hi);
    assert Fits([b] + c, LastEnd(a, lo), hi);
    assert LastEnd(a, lo) <= b.addr && Fits(c, End(b), hi) by {
      assert ([b] + c)[1..] == c;
    }
    hide Fits;
    FitsBounds(mid, b.addr, End(b), |mid| - 1);
    FitsShrinks(mid, b.addr, End(b));
    FitsLower(mid, b.addr, LastEnd(a, lo), LastEnd(mid, 0));
    FitsLower(c, End(b), LastEnd(mid, 0), hi);
    FitsConcat(mid, c, LastEnd(a, lo), hi);
    FitsConcat(a, mid + c, lo, hi);
  }

  lemma ReplaceTotal(bs: seq<Block>, i: nat, mid: seq<Block>)
    requires i < |bs|
    ensures Total(bs[..i] + mid + bs[i + 1..]) == Total(bs) - bs[i].size - HEADER + Total(mid)
  {
    var a, c := bs[..i], bs[i + 1..];
    assert bs == a + ([bs[i]] + c) && a + mid + c == a + (mid + c);
    assert ([bs[i]] + c)[1..] == c;
    TotalConcat(a, [bs[i]] + c);
    TotalConcat(mid, c);
    TotalConcat(a, mid + c);
  }

  lemma FitsLower(bs: seq<Block>, lo: nat, lo': nat, hi: nat)
    requires Fits(bs, lo, hi) && lo' <= lo
    ensures Fits(bs, lo', hi)
  {
  }

  lemma FitsShrinks(bs: seq<Block>, lo: nat, hi: nat)
    requires Fits(bs, lo, hi)
    ensures Fits(bs, lo, LastEnd(bs, lo))
  {
    assert bs + [] == bs;
    FitsConcat(bs, [], lo, hi);
  }

  /** kmalloc hands out the first fit, exactly as large as asked for, at a place no live
      allocation has; it keeps every live allocation and loses at most the slack. */
  lemma MallocKeeps(bs: seq<Block>, req: nat)
    requires Inv(bs) && req < TWO_32 && Roomy(bs, req)
    ensures Inv(Malloc(bs, req))
    ensures Total(Malloc(bs, req)) == Total(bs) - Slack(bs, req) && Slack(bs, req) <= 47
  {
    var i := FirstFit(bs, req);
    if req != 0 && i < |bs| {
      FitsBounds(bs, HEAP_START, HEAP_END, i);
      SplitFits(bs[i], req, bs[i].addr);
      ReplaceFits(bs, i, Split(bs[i], req), HEAP_START, HEAP_END);
      ReplaceTotal(bs, i, Split(bs[i], req));
      SplitNeighbours(bs, i, req);
    }
  }

  lemma SplitNeighbours(bs: seq<Block>, i: nat, req: nat)
    requires NoFreeNeighbours(bs) && i < |bs| && bs[i].free
    ensures NoFreeNeighbours(bs[..i] + Split(bs[i], req) + bs[i + 1..])
  {
    var s := Split(bs[i], req);
    var r := bs[..i] + s + bs[i + 1..];
    forall k | 0 <= k < |r| - 1
      ensures !(r[k].free && r[k + 1].free)
    {
      if k >= i + |s| - 1 {
        var j := k - |s| + 1;
        assert r[k + 1] == bs[j + 1];
        assert k >= i + |s| ==> r[k] == bs[j];
      } else if k + 1 < i {
        assert r[k] == bs[k] && r[k + 1] == bs[k + 1];
      }
    }
  }

  lemma SplitUses(bs: seq<Block>, i: nat, req: nat)
    requires i < |bs| && bs[i].free
    ensures Used(bs[..i] + Split(bs[i], req) + bs[i + 1..]) == Used(bs) + {Block(bs[i].addr, req, false)}
  {
    var s := Split(bs[i], req);
    UsedConcat(bs[..i], s);
    UsedConcat(bs[..i] + s, bs[i + 1..]);
    UsedConcat(bs[..i], [bs[i]]);
    UsedConcat(bs[..i] + [bs[i]], bs[i + 1..]);
    assert bs == bs[..i] + [bs[i]] + bs[i + 1..];
    assert s[0] in s;
  }

  lemma UsedConcat(a: seq<Block>, b: seq<Block>)
    ensures Used(a + b) == Used(a) + Used(b)
  {
  }

  lemma MallocUses(bs: seq<Block>, req: nat)
    requires Inv(bs) && req < TWO_32
    ensures var p := MallocResult(bs, req);
      && (p == 0 <==> req == 0 || forall b :: b in bs && b.free ==> b.size <= req)
      && (p == 0 ==> Malloc(bs, req) == bs)
      && (p != 0 ==> Used(Malloc(bs, req)) == Used(bs) + {Block(p - HEADER, req, false)})
      && (p != 0 ==> forall b :: b in Used(bs) ==> Payload(b) + b.size <= p || p + req <= b.addr)
  {
    var i := FirstFit(bs, req);
    FirstFitNone(bs, req);
    hide FirstFit;
    if req != 0 && i < |bs| {
      SplitUses(bs, i, req);
      forall b | b in Used(bs)
        ensures Payload(b) + b.size <= Payload(bs[i]) || Payload(bs[i]) + req <= b.addr
      {
        UsedAside(bs, i, b);
      }
    }
  }

  lemma FirstFitNone(bs: seq<Block>, req: nat)
    ensures FirstFit(bs, req) == |bs| <==> forall b :: b in bs && b.free ==> b.size <= req
    ensures var i := FirstFit(bs, req); i <= |bs| && (i < |bs| ==> bs[i].free && bs[i].size > req)
  {
  }

  /** A used block lies before or behind a free one. */
  lemma UsedAside(bs: seq<Block>, i: nat, b: Block)
    requires Inv(bs) && i < |bs| && bs[i].free && b in Used(bs)
    ensures End(b) <= bs[i].addr || End(bs[i]) <= b.addr
  {
    var j :| 0 <= j < |bs| && bs[j] == b;
    if i < j {
      FitsOrdered(bs, HEAP_START, HEAP_END, i, j);
    } else {
      FitsOrdered(bs, HEAP_START, HEAP_END, j, i);
    }
  }

  /** The precondition is sharp: an allocation keeps the invariant exactly when its first fit,
      if there is one, exceeds the request by a header. */
  lemma MallocKeepsExactlyWhenRoomy(bs: seq<Block>, req: nat)
    requires Inv(bs) && req < TWO_32
    ensures Inv(Malloc(bs, req)) <==> Roomy(bs, req)
  {
    if Roomy(bs, req) {
      MallocKeeps(bs, req);
    } else {
      var i := FirstFit(bs, req);
      var r := Malloc(bs, req);
      FitsBounds(bs, HEAP_START, HEAP_END, i);
      assert Remaining(bs[i], req) == TWO_32 + bs[i].size - req - HEADER;
      assert r[i + 1] == Split(bs[i], req)[1];
      if Inv(r) {
        FitsBounds(r, HEAP_START, HEAP_END, i + 1);
        assert false;
      }
    }
  }

  /** A fresh heap is broken by a request for all but five of its bytes. */
  lemma FreshHeapCanBreak()
    ensures Inv(InitialHeap()) && !Inv(Malloc(InitialHeap(), HEAP_SIZE - HEADER - 5))
  {
    MallocKeepsExactlyWhenRoomy(InitialHeap(), HEAP_SIZE - HEADER - 5);
  }

  // ----- kfree -----

  lemma {:induction false} CoalesceKeeps(bs: seq<Block>, lo: nat, hi: nat)
    requires bs != [] && Fits(bs, lo, hi) && hi < TWO_32
    ensures var r := Coalesce(bs);
      && r != [] && r[0].addr == bs[0].addr && r[0].free == bs[0].free
      && Fits(r, lo, hi) && Total(r) == Total(bs) && NoFreeNeighbours(r) && Used(r) == Used(bs)
    decreases |bs|
  {
    if |bs| >= 2 {
      FitsBounds(bs, lo, hi, 0);
      FitsBounds(bs, lo, hi, 1);
      if bs[0].free && bs[1].free {
        MergeKeeps(bs, lo, hi);
        CoalesceKeeps([Merge(bs[0], bs[1])] + bs[2..], lo, hi);
      } else {
        CoalesceKeeps(bs[1..], End(bs[0]), hi);
        PrependKeeps(bs[0], bs[1..], Coalesce(bs[1..]), lo, hi);
        assert bs == [bs[0]] + bs[1..];
      }
    }
  }

  lemma PrependKeeps(b: Block, rest: seq<Block>, r: seq<Block>, lo: nat, hi: nat)
    requires rest != [] && r != [] && lo <= b.addr && !(b.free && rest[0].free) && r[0].free == rest[0].free
    requires Fits(r, End(b), hi) && Total(r) == Total(rest) && NoFreeNeighbours(r) && Used(r) == Used(rest)
    ensures Fits([b] + r, lo, hi) && Total([b] + r) == Total([b] + rest) && NoFreeNeighbours([b] + r)
    ensures Used([b] + r) == Used([b] + rest)
  {
    assert ([b] + r)[1..] == r && ([b] + rest)[1..] == rest;
    UsedConcat([b], r);
    UsedConcat([b], rest);
  }

  /** Merging leaves the gap that lay between two blocks behind the merged one. */
  lemma MergeKeeps(bs: seq<Block>, lo: nat, hi: nat)
    requires |bs| >= 2 && Fits(bs, lo, hi) && hi < TWO_32 && bs[0].free && bs[1].free
    ensures var r := [Merge(bs[0], bs[1])] + bs[2..];
      Fits(r, lo, hi) && Total(r) == Total(bs) && Used(r) == Used(bs)
  {
    var m := Merge(bs[0], bs[1]);
    var r := [m] + bs[2..];
    FitsBounds(bs, lo, hi, 0);
    FitsBounds(bs, lo, hi, 1);
    assert m.size == bs[0].size + bs[1].size + HEADER;
    assert r[1..] == bs[2..] == bs[1..][1..];
    FitsLower(bs[2..], End(bs[1]), End(m), hi);
    assert bs == [bs[0], bs[1]] + bs[2..];
  }

  lemma FreedBlocks(bs: seq<Block>, i: nat, lo: nat, hi: nat)
    requires Fits(bs, lo, hi) && i < |bs|
    ensures var r := bs[i := bs[i].(free := true)];
      Fits(r, lo, hi) && Total(r) == Total(bs) && Used(r) == Used(bs) - {bs[i]}
  {
    var b := bs[i].(free := true);
    var r := bs[i := b];
    FitsBounds(bs, lo, hi, i);
    ReplaceFits(bs, i, [b], lo, hi);
    ReplaceTotal(bs, i, [b]);
    assert r == bs[..i] + [b] + bs[i + 1..];
    forall c
      ensures c in Used(r) <==> c in Used(bs) && c != bs[i]
    {
      if c in Used(bs) && c != bs[i] {
        var j :| 0 <= j < |bs| && bs[j] == c;
        assert r[j] == c;
      }
      if c in Used(r) {
        var j :| 0 <= j < |r| && r[j] == c;
        if i < j {
          FitsOrdered(bs, lo, hi, i, j);
        } else {
          FitsOrdered(bs, lo, hi, j, i);
        }
        assert bs[j] == c;
      }
    }
  }

  /** kfree gives back exactly the block it is passed; nothing is lost and no two neighbours
      stay free. */
  lemma FreeKeeps(bs: seq<Block>, ptr: nat)
    requires Inv(bs)
    ensures Inv(Free(bs, ptr)) && Total(Free(bs, ptr)) == Total(bs)
    ensures Used(Free(bs, ptr)) == set b | b in Used(bs) && Payload(b) != ptr
  {
    hide Fits, Total, Coalesce;
    var i := BlockOf(bs, ptr);
    if ptr != 0 && i < |bs| {
      FreedBlocks(bs, i, HEAP_START, HEAP_END);
      CoalesceKeeps(bs[i := bs[i].(free := true)], HEAP_START, HEAP_END);
      forall b | b in Used(bs) && Payload(b) == ptr
        ensures b == bs[i]
      {
        var j :| 0 <= j < |bs| && bs[j] == b;
        if i < j {
          FitsOrdered(bs, HEAP_START, HEAP_END, i, j);
        }
      }
    }
  }

  lemma SomeNeighbourIsUsed(bs: seq<Block>)
    requires NoFreeNeighbours(bs)
    ensures |bs| > 1 ==> exists b :: b in Used(bs)
  {
    if |bs| > 1 {
      var i := if bs[0].free then 1 else 0;
      assert bs[i] in bs && bs[i] in Used(bs);
    }
  }

  /** With nothing in use, one free block is left, of exactly the size that was not lost. */
  lemma AllFreeIsOneBlock(bs: seq<Block>)
    requires Inv(bs) && Used(bs) == {}
    ensures bs == [Block(HEAP_START, Total(bs) - HEADER, true)]
  {
    SomeNeighbourIsUsed(bs);
    assert bs[0] in bs && bs[0] !in Used(bs);
    assert bs[1..] == [];
  }

  // ----- runs -----

  datatype Request = Alloc(size: nat) | Release(ptr: nat)

  function Step(bs: seq<Block>, r: Request): seq<Block> {
    match r
    case Alloc(size) => Malloc(bs, size)
    case Release(ptr) => Free(bs, ptr)
  }

  /** Sizes are 32-bit and leave room for a header in the block they get; only NULL and live
      allocations are freed. */
  ghost predicate Allowed(bs: seq<Block>, r: Request) {
    match r
    case Alloc(size) => size < TWO_32 && Roomy(bs, size)
    case Release(ptr) => ptr == 0 || exists b :: b in Used(bs) && Payload(b) == ptr
  }

  function Run(bs: seq<Block>, rs: seq<Request>): seq<Block>
    decreases |rs|
  {
    if rs == [] then bs else Run(Step(bs, rs[0]), rs[1..])
  }

  ghost predicate AllAllowed(bs: seq<Block>, rs: seq<Request>)
    decreases |rs|
  {
    rs == [] || (Allowed(bs, rs[0]) && AllAllowed(Step(bs, rs[0]), rs[1..]))
  }

  function SlackOf(bs: seq<Block>, r: Request): nat { if r.Alloc? then Slack(bs, r.size) else 0 }

  /** The bytes a run loses, and the number of allocations that lose any. */
  function Lost(bs: seq<Block>, rs: seq<Request>): nat
    decreases |rs|
  {
    if rs == [] then 0 else SlackOf(bs, rs[0]) + Lost(Step(bs, rs[0]), rs[1..])
  }

  function Unsplit(bs: seq<Block>, rs: seq<Request>): nat
    decreases |rs|
  {
    if rs == [] then 0 else (if SlackOf(bs, rs[0]) > 0 then 1 else 0) + Unsplit(Step(bs, rs[0]), rs[1..])
  }

  lemma {:induction false} RunKeeps(bs: seq<Block>, rs: seq<Request>)
    requires Inv(bs) && AllAllowed(bs, rs)
    ensures Inv(Run(bs, rs)) && Total(Run(bs, rs)) + Lost(bs, rs) == Total(bs)
    ensures Lost(bs, rs) <= 47 * Unsplit(bs, rs)
    decreases |rs|
  {
    if rs != [] {
      match rs[0] {
        case Alloc(size) => MallocKeeps(bs, size);
        case Release(ptr) => FreeKeeps(bs, ptr);
      }
      RunKeeps(Step(bs, rs[0]), rs[1..]);
    }
  }

  lemma FreshHeap()
    ensures Inv(InitialHeap()) && Total(InitialHeap()) == HEAP_SIZE && Used(InitialHeap()) == {}
  {
  }

  /** Over every run: blocks in address order, disjoint and inside the heap, no two neighbours
      free, and every byte accounted for. */
  lemma RunsConserve(rs: seq<Request>)
    requires AllAllowed(InitialHeap(), rs)
    ensures var h := Run(InitialHeap(), rs);
      && (forall i, j :: 0 <= i < j < |h| ==>
            0x100000 <= h[i].addr && End(h[i]) <= h[j].addr && End(h[j]) <= 0x400000)
      && NoFreeNeighbours(h)
      && Total(h) == 0x300000 - Lost(InitialHeap(), rs)
      && Lost(InitialHeap(), rs) <= 47 * Unsplit(InitialHeap(), rs)
  {
    RunKeeps(InitialHeap(), rs);
    var h := Run(InitialHeap(), rs);
    forall i, j | 0 <= i < j < |h|
      ensures HEAP_START <= h[i].addr && End(h[i]) <= h[j].addr && End(h[j]) <= HEAP_END
    {
      FitsBounds(h, HEAP_START, HEAP_END, i);
      FitsBounds(h, HEAP_START, HEAP_END, j);
      FitsOrdered(h, HEAP_START, HEAP_END, i, j);
    }
  }

  /** A live allocation keeps its place and size until it is released. */
  lemma {:induction false} LiveBlockIsKept(bs: seq<Block>, rs: seq<Request>, b: Block)
    requires Inv(bs) && AllAllowed(bs, rs) && b in Used(bs) && Release(Payload(b)) !in rs
    ensures b in Used(Run(bs, rs))
    decreases |rs|
  {
    if rs != [] {
      match rs[0] {
        case Alloc(size) =>
          MallocKeeps(bs, size);
          MallocUses(bs, size);
        case Release(ptr) =>
          FreeKeeps(bs, ptr);
      }
      LiveBlockIsKept(Step(bs, rs[0]), rs[1..], b);
    }
  }

  /** The requests that release these pointers, one after another. */
  function Releases(ps: seq<nat>): seq<Request>
    decreases |ps|
  {
    if ps == [] then [] else [Release(ps[0])] + Releases(ps[1..])
  }

  lemma {:induction false} ReleasesKeep(bs: seq<Block>, ps: seq<nat>)
    requires Inv(bs)
    ensures var r := Run(bs, Releases(ps)); Inv(r) && Total(r) == Total(bs)
    ensures Used(Run(bs, Releases(ps))) == set b | b in Used(bs) && Payload(b) !in ps
    decreases |ps|
  {
    if ps != [] {
      FreeKeeps(bs, ps[0]);
      assert Releases(ps)[1..] == Releases(ps[1..]);
      ReleasesKeep(Free(bs, ps[0]), ps[1..]);
      assert forall p :: p in ps <==> p == ps[0] || p in ps[1..];
    }
  }

  lemma {:induction false} RunConcat(bs: seq<Block>, rs: seq<Request>, more: seq<Request>)
    ensures Run(bs, rs + more) == Run(Run(bs, rs), more)
    decreases |rs|
  {
    hide Step;
    if rs == [] {
      assert rs + more == more;
    } else {
      assert (rs + more)[1..] == rs[1..] + more;
      RunConcat(Step(bs, rs[0]), rs[1..], more);
    }
  }

  /** Releasing everything that is live, in any order, leaves one block of the remaining size. */
  lemma FreeingEverything(rs: seq<Request>, ps: seq<nat>)
    requires AllAllowed(InitialHeap(), rs)
    requires forall b :: b in Used(Run(InitialHeap(), rs)) ==> Payload(b) in ps
    ensures Lost(InitialHeap(), rs) <= HEAP_SIZE - HEADER
    ensures Run(InitialHeap(), rs + Releases(ps)) == [Block(0x100000, 0x300000 - 12 - Lost(InitialHeap(), rs), true)]
  {
    hide Run, AllAllowed, Lost, Releases, Inv, Total;
    assert Inv(InitialHeap()) && Total(InitialHeap()) == HEAP_SIZE by {
      FreshHeap();
    }
    RunKeeps(InitialHeap(), rs);
    RunConcat(InitialHeap(), rs, Releases(ps));
    ReleasesKeep(Run(InitialHeap(), rs), ps);
    AllFreeIsOneBlock(Run(Run(InitialHeap(), rs), Releases(ps)));
  }
}
