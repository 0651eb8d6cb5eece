/**
 What the kernel heap promises, stated over the list of its blocks and over the set of
 live (allocated) blocks. The live set is the client's view: the bytes that have been
 handed out, headers included. Requests are judged against it and not against the list.
 */
module HeapSpec {

  import opened Bytes

  /** sizeof(MemoryBlock) */
  const HEADER := 24

  /** A block: the address of its header, the size of its payload, and whether it is free. */
  datatype Block = Block(addr: nat, size: nat, free: bool)

  function End(b: Block): nat {
    b.addr + HEADER + b.size
  }

  /** `align_8`, including the wrap-around of 64-bit addition. */
  function AlignUp8(n: nat): (a: nat)
    ensures a % 8 == 0 && (n <= WORD - 8 ==> n <= a < n + 8)
  {
    (n + 7) % WORD / 8 * 8
  }

  // ---------- Block lists ----------

  /** The blocks cover the addresses from `lo` up to `hi` without gap or overlap. */
  ghost predicate Tiles(bs: seq<Block>, lo: nat, hi: nat) {
    if bs == [] then lo == hi else
      && bs[0].addr == lo && End(bs[|bs| - 1]) == hi
      && forall i, j :: 0 <= i && j == i + 1 && j < |bs| ==> End(bs[i]) == bs[j].addr
  }

  ghost predicate NoAdjacentFree(bs: seq<Block>) {
    forall i, j :: 0 <= i && j == i + 1 && j < |bs| ==> !(bs[i].free && bs[j].free)
  }

  /** Every header, hence every payload, sits at a multiple of 8 from the start of the heap. */
  ghost predicate Aligned(bs: seq<Block>, lo: nat) {
    forall i :: 0 <= i < |bs| ==> bs[i].addr >= lo && (bs[i].addr - lo) % 8 == 0
  }

  ghost predicate WellFormed(bs: seq<Block>, lo: nat, hi: nat) {
    Tiles(bs, lo, hi) && NoAdjacentFree(bs) && Aligned(bs, lo)
  }

  /** The heap as `init_heap` leaves it: one free block, or nothing if no header fits. */
  function Initial(lo: nat, hi: nat): seq<Block>
    requires lo <= hi
  {
    if hi - lo < HEADER then [] else [Block(lo, hi - lo - HEADER, true)]
  }

  /** The invariant of the heap between calls. */
  ghost predicate Ok(bs: seq<Block>, lo: nat, hi: nat) {
    lo <= hi && if hi - lo < HEADER then bs == [] else bs != [] && WellFormed(bs, lo, hi)
  }

  // ---------- The client's view ----------

  function Live(bs: seq<Block>): set<Block> {
    set b | b in bs && !b.free
  }

  /** The bytes from `s` up to `s + len` lie in the heap and touch no live block. */
  ghost predicate Fits(live: set<Block>, lo: nat, hi: nat, s: nat, len: nat) {
    lo <= s && s + len <= hi && forall b :: b in live ==> End(b) <= s || s + len <= b.addr
  }

  ghost predicate FitsNowhere(live: set<Block>, lo: nat, hi: nat, len: nat) {
    forall s: nat :: !Fits(live, lo, hi, s, len)
  }

  ghost predicate LowestFit(live: set<Block>, lo: nat, hi: nat, s: nat, len: nat) {
    Fits(live, lo, hi, s, len) && forall t: nat :: t < s ==> !Fits(live, lo, hi, t, len)
  }

  /** Nothing can be placed at `a`: a live block starts there, or the heap ends there. */
  ghost predicate Taken(live: set<Block>, hi: nat, a: nat) {
    a == hi || exists b :: b in live && b.addr == a
  }

  /**
   What one call of `kmalloc(n)` does to the heap. On success one live block is added, at the
   lowest address where it fits; it is no larger than asked unless the bytes left of the
   free run could not hold another block of 8 bytes. Failure means that it fits nowhere.
   */
  ghost predicate Alloc(bs: seq<Block>, bs': seq<Block>, lo: nat, hi: nat, n: nat, p: nat) {
    && Ok(bs', lo, hi)
    && if n == 0 then p == 0 && bs' == bs
       else if p == 0 then bs' == bs && FitsNowhere(Live(bs), lo, hi, HEADER + AlignUp8(n))
       else Granted(bs, bs', lo, hi, AlignUp8(n), p)
  }

  ghost predicate Granted(bs: seq<Block>, bs': seq<Block>, lo: nat, hi: nat, a: nat, p: nat) {
    && p >= HEADER
    && LowestFit(Live(bs), lo, hi, p - HEADER, HEADER + a)
    && exists g: nat :: GrantedSize(bs, bs', lo, hi, a, p, g)
  }

  /** The block at `p` is new, of `g` bytes, and the rest of the free run is still free. */
  ghost predicate GrantedSize(bs: seq<Block>, bs': seq<Block>, lo: nat, hi: nat, a: nat, p: nat, g: nat)
    requires p >= HEADER
  {
    && Block(p - HEADER, g, false) !in Live(bs)
    && Live(bs') == Live(bs) + {Block(p - HEADER, g, false)}
    && Fits(Live(bs), lo, hi, p - HEADER, HEADER + g)
    && a <= g < a + HEADER + 8
    && if g == a then Taken(Live(bs), hi, p + g) || Fits(Live(bs), lo, hi, p + g, HEADER + 8)
       else Taken(Live(bs), hi, p + g)
  }

  /** What one call of `kfree(p)` does to the heap: the live block at `p` is gone. */
  ghost predicate Free(bs: seq<Block>, bs': seq<Block>, lo: nat, hi: nat, p: nat) {
    && Ok(bs', lo, hi)
    && if p == 0 then bs' == bs
       else exists b :: b in Live(bs) && b.addr + HEADER == p && Live(bs') == Live(bs) - {b}
  }

  // ---------- Tiling ----------

  /** Blocks are laid out in address order. */
  lemma {:induction false} Ordered(bs: seq<Block>, lo: nat, hi: nat, i: nat, j: nat)
    requires Tiles(bs, lo, hi)
    requires i <= j < |bs|
    ensures bs[i].addr <= bs[j].addr
    ensures i < j ==> End(bs[i]) <= bs[j].addr
    decreases j - i
  {
    if i < j {
      Ordered(bs, lo, hi, i + 1, j);
      assert End(bs[i]) == bs[i + 1].addr;
    }
  }

  /** Distinct blocks share no byte, and every block lies inside the heap. */
  lemma Disjoint(bs: seq<Block>, lo: nat, hi: nat)
    requires Tiles(bs, lo, hi)
    ensures forall i, j :: 0 <= i < j < |bs| ==> End(bs[i]) <= bs[j].addr
    ensures forall i :: 0 <= i < |bs| ==> lo <= bs[i].addr && End(bs[i]) <= hi
    ensures lo <= hi
  {
    forall i, j | 0 <= i < j < |bs|
      ensures End(bs[i]) <= bs[j].addr
    {
      Ordered(bs, lo, hi, i, j);
    }
    forall i | 0 <= i < |bs|
      ensures lo <= bs[i].addr && End(bs[i]) <= hi
    {
      Ordered(bs, lo, hi, 0, i);
      Ordered(bs, lo, hi, i, |bs| - 1);
    }
  }

  /** Every address of the heap lies in some block. */
  lemma {:induction false} BlockOfAddress(bs: seq<Block>, lo: nat, hi: nat, s: nat, n: nat) returns (i: nat)
    requires Tiles(bs, lo, hi)
    requires n < |bs| && lo <= s < End(bs[n])
    ensures i <= n && bs[i].addr <= s < End(bs[i])
  {
    if s >= bs[n].addr {
      i := n;
    } else {
      assert End(bs[n - 1]) == bs[n].addr;
      i := BlockOfAddress(bs, lo, hi, s, n - 1);
    }
  }

  /** Free space never straddles blocks: what fits among the live blocks fits in one free block. */
  lemma FitsInOneBlock(bs: seq<Block>, lo: nat, hi: nat, s: nat, len: nat) returns (i: nat)
    requires Tiles(bs, lo, hi) && NoAdjacentFree(bs)
    requires Fits(Live(bs), lo, hi, s, len) && len > 0
    ensures i < |bs| && bs[i].free && bs[i].addr <= s && s + len <= End(bs[i])
  {
    i := BlockOfAddress(bs, lo, hi, s, |bs| - 1);
    assert bs[i] !in Live(bs);
    assert i + 1 < |bs| ==> bs[i + 1].addr == End(bs[i]) && bs[i + 1] in Live(bs);
  }

  /** A free block is free space. */
  lemma FreeBlockFits(bs: seq<Block>, lo: nat, hi: nat, i: nat, s: nat, len: nat)
    requires Tiles(bs, lo, hi)
    requires i < |bs| && bs[i].free && bs[i].addr <= s && s + len <= End(bs[i])
    ensures Fits(Live(bs), lo, hi, s, len)
  {
    Disjoint(bs, lo, hi);
    forall b | b in Live(bs)
      ensures End(b) <= s || s + len <= b.addr
    {
      var j :| 0 <= j < |bs| && bs[j] == b;
      assert j != i;
    }
  }

  // ---------- Canonical form ----------

  /** The live blocks of a list split at its first block. */
  lemma LiveSplit(bs: seq<Block>)
    requires bs != []
    ensures Live(bs) == (if bs[0].free then {} else {bs[0]}) + Live(bs[1..])
  {
  }

  /** Dropping the first block leaves a well-formed list of the rest of the heap. */
  lemma TailTiles(bs: seq<Block>, lo: nat, hi: nat)
    requires Tiles(bs, lo, hi) && NoAdjacentFree(bs) && bs != []
    ensures Tiles(bs[1..], End(bs[0]), hi) && NoAdjacentFree(bs[1..])
    ensures forall b :: b in bs[1..] ==> b.addr >= End(bs[0])
  {
    Disjoint(bs, lo, hi);
  }

  /** Of two lists with the same live blocks, the first free block of one is not the longer. */
  lemma FirstFreeNotLonger(b1: seq<Block>, b2: seq<Block>, lo: nat, hi: nat)
    requires Tiles(b1, lo, hi) && NoAdjacentFree(b1) && Tiles(b2, lo, hi) && NoAdjacentFree(b2)
    requires Live(b1) == Live(b2)
    requires b1 != [] && b1[0].free && b2 != []
    ensures b2[0].free && b2[0].size <= b1[0].size
  {
    Disjoint(b1, lo, hi);
    Disjoint(b2, lo, hi);
    assert b2[0] !in Live(b1);
    assert 1 < |b1| ==> b1[1].addr == End(b1[0]) && b1[1] in Live(b2);
  }

  lemma FirstBlocksAgree(b1: seq<Block>, b2: seq<Block>, lo: nat, hi: nat)
    requires Tiles(b1, lo, hi) && NoAdjacentFree(b1) && Tiles(b2, lo, hi) && NoAdjacentFree(b2)
    requires Live(b1) == Live(b2)
    requires b1 != [] && b2 != []
    ensures b1[0] == b2[0]
  {
    if b1[0].free {
      FirstFreeNotLonger(b1, b2, lo, hi);
      FirstFreeNotLonger(b2, b1, lo, hi);
    } else {
      assert b1[0] in Live(b2);
      Disjoint(b2, lo, hi);
    }
  }

  lemma TailLive(bs: seq<Block>, lo: nat, hi: nat)
    requires Tiles(bs, lo, hi) && bs != []
    ensures Live(bs[1..]) == Live(bs) - {bs[0]}
  {
    Disjoint(bs, lo, hi);
    LiveSplit(bs);
  }

  /** The live blocks alone determine the whole block list, sizes of free blocks included. */
  lemma {:induction false} Canonical(b1: seq<Block>, b2: seq<Block>, lo: nat, hi: nat)
    requires Tiles(b1, lo, hi) && NoAdjacentFree(b1) && Tiles(b2, lo, hi) && NoAdjacentFree(b2)
    requires Live(b1) == Live(b2)
    ensures b1 == b2
    decreases |b1|
  {
    if b1 == [] || b2 == [] {
      Disjoint(b1, lo, hi);
      Disjoint(b2, lo, hi);
    } else {
      FirstBlocksAgree(b1, b2, lo, hi);
      TailTiles(b1, lo, hi);
      TailTiles(b2, lo, hi);
      TailLive(b1, lo, hi);
      TailLive(b2, lo, hi);
      Canonical(b1[1..], b2[1..], End(b1[0]), hi);
      assert b1 == [b1[0]] + b1[1..] && b2 == [b2[0]] + b2[1..];
    }
  }

  lemma OkCanonical(b1: seq<Block>, b2: seq<Block>, lo: nat, hi: nat)
    requires Ok(b1, lo, hi) && Ok(b2, lo, hi) && Live(b1) == Live(b2)
    ensures b1 == b2
  {
    if hi - lo >= HEADER {
      Canonical(b1, b2, lo, hi);
    }
  }

  lemma InitialOk(lo: nat, hi: nat)
    requires lo <= hi
    ensures Ok(Initial(lo, hi), lo, hi) && Live(Initial(lo, hi)) == {}
  {
  }
}
