/** kmalloc.c in its own form: headers in memory, linked by address and changed in place, proved
    against KernelHeap. */
module KernelHeapCode {
  import opened Integers
  import opened KernelHeap

  datatype Header = Header(size: nat, free: bool, next: nat)

  /** The list of headers from `head` runs through the addresses of `chain` and ends with NULL. */
  predicate Linked(chain: seq<nat>, headers: map<nat, Header>, head: nat) {
    && |chain| > 0 && head == chain[0]
    && Distinct(chain) && Present(chain, headers)
    && forall i :: 0 <= i < |chain| ==> LinkedAt(chain, headers, i)
  }

  predicate Present(chain: seq<nat>, headers: map<nat, Header>) {
    forall i :: 0 <= i < |chain| ==> chain[i] != 0 && chain[i] in headers
  }

  predicate LinkedAt(chain: seq<nat>, headers: map<nat, Header>, i: nat)
    requires i < |chain|
  {
    chain[i] in headers && headers[chain[i]].next == NextInChain(chain, i)
  }

  predicate Distinct(chain: seq<nat>) { forall i, j :: 0 <= i < j < |chain| ==> chain[i] != chain[j] }

  function NextInChain(chain: seq<nat>, i: nat): nat
    requires i < |chain|
  {
    if i + 1 < |chain| then chain[i + 1] else 0
  }

  function BlockAt(headers: map<nat, Header>, a: nat): Block
    requires a in headers
  {
    Block(a, headers[a].size, headers[a].free)
  }

  function BlocksOf(chain: seq<nat>, headers: map<nat, Header>): (bs: seq<Block>)
    requires Present(chain, headers)
    ensures |bs| == |chain|
    ensures forall i :: 0 <= i < |bs| ==> bs[i] == BlockAt(headers, chain[i])
  {
    seq(|chain|, i requires 0 <= i < |chain| => BlockAt(headers, chain[i]))
  }

  class Heap {
    var headers: map<nat, Header>
    var head: nat
    ghost var chain: seq<nat>

    ghost predicate Valid()
      reads this
    {
      Linked(chain, headers, head)
    }

    ghost function Blocks(): seq<Block>
      requires Valid()
      reads this
    {
      BlocksOf(chain, headers)
    }

    /** init_heap. */
    constructor ()
      ensures Valid() && Blocks() == InitialHeap()
    {
      head := HEAP_START;
      headers := map[HEAP_START := Header(HEAP_SIZE - HEADER, true, 0)];
      chain := [HEAP_START];
    }

    /** split_block, for the block at position `k`. */
    method SplitBlock(block: nat, size: nat, ghost k: nat)
      requires Valid() && k < |chain| && block == chain[k] && block + HEADER + size !in chain
      modifies this
      ensures Valid() && Blocks() == old(Blocks())[..k] + Split(old(Blocks())[k], size) + old(Blocks())[k + 1..]
    {
      hide Linked, BlocksOf, Insert;
      assert LinkedHere(k);
      var h := headers[block];
      var remaining := U32(h.size - size - HEADER);
      if remaining < HEADER * 3 {
        Resized(chain, headers, head, k, h.(size := size, free := false));
        headers := headers[block := h.(size := size, free := false)];
        return;
      }
      var newBlock := block + HEADER + size;
      ghost var n, u := Header(remaining, true, h.next), Header(size, false, newBlock);
      Inserted(chain, headers, head, k, newBlock, n, u);
      InsertedBlocks(chain, headers, head, k, newBlock, n, u);
      headers := headers[newBlock := Header(remaining, true, h.next)];
      headers := headers[block := Header(size, false, newBlock)];
      chain := Insert(chain, k, newBlock);
    }

    /** The merging step of coalesce_blocks. */
    method MergeBlock(prev: nat, block: nat, ghost k: nat) returns (next: nat)
      requires Valid() && 0 < k < |chain| && prev == chain[k - 1] && block == chain[k]
      modifies `headers, `chain
      ensures Valid() && |chain| == |old(chain)| - 1 && chain[k - 1] == prev
      ensures next == if k < |chain| then chain[k] else 0
      ensures var bs := old(Blocks()); Blocks() == bs[..k - 1] + [Merge(bs[k - 1], bs[k])] + bs[k + 1..]
    {
      hide Linked, BlocksOf;
      assert LinkedHere(k) && LinkedHere(k - 1);
      next := headers[block].next;
      var h := headers[prev].(size := U32(headers[prev].size + headers[block].size + HEADER), next := next);
      Removed(chain, headers, head, k, h);
      RemovedBlocks(chain, headers, head, k, h);
      headers := headers[prev := h];
      chain := Remove(chain, k);
    }

    ghost predicate LinkedHere(k: nat)
      requires Valid() && k < |chain|
      reads this
      ensures LinkedHere(k)
    {
      && chain[k] != 0 && LinkedAt(chain, headers, k) && (k == 0 <==> chain[k] == head)
      && Blocks()[k] == BlockAt(headers, chain[k])
    }

    lemma NotEmpty()
      requires Valid()
      ensures |chain| > 0
    {
    }

    /** coalesce_blocks: everything before `prev` is done. */
    method CoalesceBlocks()
      requires Valid()
      modifies `headers, `chain
      ensures Valid() && Blocks() == Coalesce(old(Blocks()))
    {
      hide Linked, BlocksOf, Coalesce, Merge;
      ghost var bs, k: nat := Blocks(), 0;
      var block, prev := head, 0;
      NotEmpty();
      assert LinkedHere(0);
      while block != 0
        invariant Valid() && CoalescingAt(prev, block, k)
        invariant Coalesced(bs, Blocks(), k)
        decreases |chain| - k
      {
        assert LinkedHere(k) && (k > 0 ==> LinkedHere(k - 1));
        if prev != 0 && headers[prev].free && headers[block].free {
          CoalesceMerges(bs, Blocks(), k);
          block := MergeBlock(prev, block, k);
        } else {
          CoalesceAdvances(bs, Blocks(), k);
          prev := block;
          block := headers[block].next;
          k := k + 1;
        }
        assert k < |chain| ==> LinkedHere(k);
      }
      CoalesceEnds(bs, Blocks(), k);
    }

    ghost predicate CoalescingAt(prev: nat, block: nat, k: nat)
      requires Valid()
      reads this
    {
      && k <= |chain| && block == (if k < |chain| then chain[k] else 0)
      && prev == (if k == 0 then 0 else chain[k - 1])
      && (k > 0 ==> prev != 0) && (k < |chain| ==> block != 0)
    }

    /** kmalloc. */
    method Kmalloc(size: nat) returns (ptr: nat)
      requires Valid() && Inv(Blocks()) && size < TWO_32
      modifies this
      ensures Valid() && Blocks() == Malloc(old(Blocks()), size) && ptr == MallocResult(old(Blocks()), size)
    {
      if size <= 0 {
        return 0;
      }
      hide Linked, BlocksOf, LinkedAt;
      ghost var bs := Blocks();
      ghost var k: nat := 0;
      var block := head;
      NotEmpty();
      assert LinkedHere(0);
      while block != 0 && !(headers[block].free && headers[block].size > size)
        invariant unchanged(this) && k <= |chain| && block == (if k < |chain| then chain[k] else 0)
        invariant block != 0 ==> LinkedHere(k)
        invariant block == 0 ==> k == |chain|
        invariant forall i :: 0 <= i < k ==> !(bs[i].free && bs[i].size > size)
        decreases |chain| - k
      {
        assert LinkedHere(k) && (k + 1 < |chain| ==> LinkedHere(k + 1));
        block := headers[block].next;
        k := k + 1;
      }
      FirstFitIs(bs, size, k);
      if block == 0 {
        return 0;
      }
      NewHeaderIsNew(bs, k, size);
      assert forall i :: 0 <= i < |chain| ==> bs[i].addr == chain[i];
      SplitBlock(block, size, k);
      return block + HEADER;
    }

    /** kfree. */
    method Kfree(ptr: nat)
      requires Valid() && (ptr == 0 || BlockOf(Blocks(), ptr) < |Blocks()|)
      modifies `headers, `chain
      ensures Valid() && Blocks() == Free(old(Blocks()), ptr)
    {
      if ptr == 0 {
        return;
      }
      ghost var bs, k := Blocks(), BlockOf(Blocks(), ptr);
      assert bs[k].addr == chain[k];
      var header := ptr - HEADER;
      Resized(chain, headers, head, k, headers[header].(free := true));
      headers := headers[header := headers[header].(free := true)];
      assert Blocks() == bs[k := bs[k].(free := true)];
      CoalesceBlocks();
    }
  }

  lemma FirstFitIs(bs: seq<Block>, req: nat, k: nat)
    requires k <= |bs| && (k < |bs| ==> bs[k].free && bs[k].size > req)
    requires forall i :: 0 <= i < k ==> !(bs[i].free && bs[i].size > req)
    ensures FirstFit(bs, req) == k
  {
  }

  /** The place of a new header is no other header's place. */
  lemma NewHeaderIsNew(bs: seq<Block>, k: nat, size: nat)
    requires Inv(bs) && k < |bs| && bs[k].size > size
    ensures forall i :: 0 <= i < |bs| ==> bs[i].addr != bs[k].addr + HEADER + size
  {
    forall i | 0 <= i < |bs|
      ensures bs[i].addr != bs[k].addr + HEADER + size
    {
      if i < k {
        FitsOrdered(bs, HEAP_START, HEAP_END, i, k);
      } else if i > k {
        FitsOrdered(bs, HEAP_START, HEAP_END, k, i);
      }
    }
  }

  // ----- one change of the linked headers -----

  /** The header at position `k` changes its size and flag. */
  lemma Resized(chain: seq<nat>, headers: map<nat, Header>, head: nat, k: nat, h: Header)
    requires Linked(chain, headers, head) && k < |chain| && h.next == headers[chain[k]].next
    ensures Linked(chain, headers[chain[k] := h], head)
    ensures var bs := BlocksOf(chain, headers);
      && BlocksOf(chain, headers[chain[k] := h]) == bs[k := Block(chain[k], h.size, h.free)]
      && bs[k := Block(chain[k], h.size, h.free)] == bs[..k] + [Block(chain[k], h.size, h.free)] + bs[k + 1..]
  {
    var m, bs := headers[chain[k] := h], BlocksOf(chain, headers);
    forall i | 0 <= i < |chain|
      ensures LinkedAt(chain, m, i)
    {
      assert LinkedAt(chain, headers, i);
    }
    assert BlocksOf(chain, m) == bs[k := Block(chain[k], h.size, h.free)];
    assert bs == bs[..k] + [bs[k]] + bs[k + 1..];
  }

  function Insert(chain: seq<nat>, k: nat, a: nat): (c: seq<nat>)
    requires k < |chain|
    ensures |c| == |chain| + 1
    ensures forall i :: 0 <= i < |c| ==> c[i] == if i <= k then chain[i] else if i == k + 1 then a else chain[i - 1]
  {
    chain[..k + 1] + [a] + chain[k + 1..]
  }

  /** A header is linked in behind position `k`, whose header becomes `h`. */
  lemma Inserted(chain: seq<nat>, headers: map<nat, Header>, head: nat, k: nat, a: nat, n: Header, h: Header)
    requires Linked(chain, headers, head) && k < |chain| && a !in chain && a != 0
    requires LinkedAt(chain, headers, k) && h.next == a && n.next == headers[chain[k]].next
    ensures Linked(Insert(chain, k, a), headers[a := n][chain[k] := h], head)
  {
    var c, m := Insert(chain, k, a), headers[a := n][chain[k] := h];
    assert Distinct(c) by {
      forall i, j | 0 <= i < j < |c|
        ensures c[i] != c[j]
      {
      }
    }
    forall i | 0 <= i < |c|
      ensures LinkedAt(c, m, i)
    {
      assert LinkedAt(chain, headers, if i <= k then i else i - 1);
    }
  }

  lemma InsertedBlocks(chain: seq<nat>, headers: map<nat, Header>, head: nat, k: nat, a: nat, n: Header, h: Header)
    requires Linked(chain, headers, head) && k < |chain| && a !in chain
    requires Linked(Insert(chain, k, a), headers[a := n][chain[k] := h], head)
    ensures var bs := BlocksOf(chain, headers);
      BlocksOf(Insert(chain, k, a), headers[a := n][chain[k] := h])
      == bs[..k] + [Block(chain[k], h.size, h.free), Block(a, n.size, n.free)] + bs[k + 1..]
  {
    hide LinkedAt, Distinct;
    var m, bs := headers[a := n][chain[k] := h], BlocksOf(chain, headers);
    var r, r' := BlocksOf(Insert(chain, k, a), m),
      bs[..k] + [Block(chain[k], h.size, h.free), Block(a, n.size, n.free)] + bs[k + 1..];
    assert |r| == |r'|;
    forall i | 0 <= i < |r|
      ensures r[i] == r'[i]
    {
      if i != k && i != k + 1 {
        var j := if i < k then i else i - 1;
        assert Insert(chain, k, a)[i] == chain[j] && r'[i] == bs[j];
        Different(chain, j, k);
      }
    }
  }

  lemma Different(chain: seq<nat>, i: nat, j: nat)
    requires i < |chain| && j < |chain| && i != j && Distinct(chain)
    ensures chain[i] != chain[j]
  {
  }

  function Remove(chain: seq<nat>, k: nat): (c: seq<nat>)
    requires k < |chain|
    ensures |c| == |chain| - 1
    ensures forall i :: 0 <= i < |c| ==> c[i] == if i < k then chain[i] else chain[i + 1]
  {
    chain[..k] + chain[k + 1..]
  }

  /** The header at position `k` is merged into the one before it, which becomes `h`. */
  lemma Removed(chain: seq<nat>, headers: map<nat, Header>, head: nat, k: nat, h: Header)
    requires Linked(chain, headers, head) && 0 < k < |chain|
    requires LinkedAt(chain, headers, k) && h.next == headers[chain[k]].next
    ensures Linked(Remove(chain, k), headers[chain[k - 1] := h], head)
  {
    var c, m := Remove(chain, k), headers[chain[k - 1] := h];
    assert LinkedAt(chain, headers, k);
    assert Distinct(c) by {
      forall i, j | 0 <= i < j < |c|
        ensures c[i] != c[j]
      {
      }
    }
    forall i | 0 <= i < |c|
      ensures LinkedAt(c, m, i)
    {
      assert LinkedAt(chain, headers, if i < k then i else i + 1);
    }
  }

  lemma RemovedBlocks(chain: seq<nat>, headers: map<nat, Header>, head: nat, k: nat, h: Header)
    requires Linked(chain, headers, head) && 0 < k < |chain|
    requires Linked(Remove(chain, k), headers[chain[k - 1] := h], head)
    ensures var bs := BlocksOf(chain, headers);
      BlocksOf(Remove(chain, k), headers[chain[k - 1] := h])
      == bs[..k - 1] + [Block(chain[k - 1], h.size, h.free)] + bs[k + 1..]
  {
    hide LinkedAt, Distinct;
    var m, bs := headers[chain[k - 1] := h], BlocksOf(chain, headers);
    var r, r' := BlocksOf(Remove(chain, k), m), bs[..k - 1] + [Block(chain[k - 1], h.size, h.free)] + bs[k + 1..];
    assert |r| == |r'|;
    forall i | 0 <= i < |r|
      ensures r[i] == r'[i]
    {
      if i != k - 1 {
        var j := if i < k then i else i + 1;
        assert Remove(chain, k)[i] == chain[j] && r'[i] == bs[j];
        Different(chain, j, k - 1);
      }
    }
  }

  /** `now` is what is left of `bs` when the blocks before position `k` are done. */
  ghost predicate Coalesced(bs: seq<Block>, now: seq<Block>, k: nat) {
    && k <= |now|
    && (if k == 0 then now == bs else Coalesce(bs) == now[..k - 1] + Coalesce(now[k - 1..]))
  }

  lemma CoalesceMerges(bs: seq<Block>, now: seq<Block>, k: nat)
    requires Coalesced(bs, now, k) && 0 < k < |now| && now[k - 1].free && now[k].free
    ensures Coalesced(bs, now[..k - 1] + [Merge(now[k - 1], now[k])] + now[k + 1..], k)
  {
    var r := now[..k - 1] + [Merge(now[k - 1], now[k])] + now[k + 1..];
    assert r[k - 1..] == [Merge(now[k - 1], now[k])] + now[k - 1..][2..];
    assert r[..k - 1] == now[..k - 1];
  }

  lemma CoalesceAdvances(bs: seq<Block>, now: seq<Block>, k: nat)
    requires Coalesced(bs, now, k) && k < |now| && (k > 0 ==> !(now[k - 1].free && now[k].free))
    ensures Coalesced(bs, now, k + 1)
  {
    if k > 0 {
      assert now[k - 1..][1..] == now[k..];
      assert now[..k] == now[..k - 1] + [now[k - 1]];
    } else {
      assert now[0..] == now && now[..0] == [];
    }
  }

  lemma CoalesceEnds(bs: seq<Block>, now: seq<Block>, k: nat)
    requires Coalesced(bs, now, k) && k == |now| > 0
    ensures now == Coalesce(bs)
  {
    assert now == now[..k - 1] + now[k - 1..];
  }
}
