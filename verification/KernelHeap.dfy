/** The kernel heap itself: headers and payloads in one byte-addressed memory. */
module KernelHeap {
  import opened Bytes
  import opened HeapSpec

  // ---------- Headers in memory ----------

  /** The header of `b` is stored in `m`: its size, its flag, and the address of the next block. */
  ghost predicate HeaderAt(m: seq<Byte>, base: nat, b: Block, next: nat) {
    && base <= b.addr && b.addr - base + HEADER <= |m|
    && WordAt(m, b.addr - base) == b.size
    && (m[b.addr - base + 8] != 0) == b.free
    && WordAt(m, b.addr - base + 16) == next
  }

  /** The address the header of block `i` must link to; 0 is the null pointer. */
  ghost function NextOf(bs: seq<Block>, i: nat): nat
    requires i < |bs|
  {
    if i + 1 < |bs| then bs[i + 1].addr else 0
  }

  ghost predicate Linked(m: seq<Byte>, base: nat, bs: seq<Block>, i: nat)
    requires i < |bs|
  {
    HeaderAt(m, base, bs[i], NextOf(bs, i))
  }

  /** The chain of headers in memory spells out the block list. */
  ghost predicate Chain(m: seq<Byte>, base: nat, bs: seq<Block>) {
    forall i {:trigger Linked(m, base, bs, i)} :: 0 <= i < |bs| ==> Linked(m, base, bs, i)
  }

  /** Two memories that differ at most between the addresses `from` and `to`. */
  ghost predicate SameOutside(m: seq<Byte>, m': seq<Byte>, base: nat, from: nat, to: nat) {
    |m| == |m'| && forall k :: 0 <= k < |m| && !(from <= base + k < to) ==> m'[k] == m[k]
  }

  /** Two memories that agree between the addresses `from` and `to`. */
  ghost predicate SameWithin(m: seq<Byte>, m': seq<Byte>, base: nat, from: nat, to: nat) {
    |m| == |m'| && forall k :: 0 <= k < |m| && from <= base + k < to ==> m'[k] == m[k]
  }

  ghost predicate SamePayload(m: seq<Byte>, m': seq<Byte>, base: nat, b: Block) {
    SameWithin(m, m', base, b.addr + HEADER, End(b))
  }

  lemma HeaderFrame(m: seq<Byte>, m': seq<Byte>, base: nat, b: Block, next: nat)
    requires HeaderAt(m, base, b, next) && SameWithin(m, m', base, b.addr, b.addr + HEADER)
    ensures HeaderAt(m', base, b, next)
  {
    SameWord(m, m', b.addr - base);
    SameWord(m, m', b.addr - base + 16);
  }

  /** A header survives a write elsewhere. */
  lemma HeaderKept(m: seq<Byte>, m': seq<Byte>, base: nat, bs: seq<Block>, i: nat, from: nat, to: nat)
    requires i < |bs| && Linked(m, base, bs, i) && SameOutside(m, m', base, from, to)
    requires bs[i].addr + HEADER <= from || to <= bs[i].addr
    ensures HeaderAt(m', base, bs[i], NextOf(bs, i))
  {
    HeaderFrame(m, m', base, bs[i], NextOf(bs, i));
  }

  /** Changing the flag of one block, and nothing else in memory. */
  lemma FlagChain(m: seq<Byte>, m': seq<Byte>, base: nat, bs: seq<Block>, i: nat, flag: bool)
    requires Tiles(bs, base, base + |m|) && Chain(m, base, bs) && i < |bs|
    requires |m'| == |m| && base <= bs[i].addr && bs[i].addr - base + HEADER <= |m|
    requires (m'[bs[i].addr - base + 8] != 0) == flag
    requires SameOutside(m, m', base, bs[i].addr + 8, bs[i].addr + 9)
    ensures Chain(m', base, bs[i := bs[i].(free := flag)])
  {
    var bs' := bs[i := bs[i].(free := flag)];
    Disjoint(bs, base, base + |m|);
    forall j | 0 <= j < |bs'|
      ensures Linked(m', base, bs', j)
    {
      assert Linked(m, base, bs, j);
      if j == i {
        SameWord(m, m', bs[i].addr - base);
        SameWord(m, m', bs[i].addr - base + 16);
      } else {
        HeaderFrame(m, m', base, bs[j], NextOf(bs, j));
      }
    }
  }

  /** Block `i` cut in two, the second part free. */
  ghost function SplitAt(bs: seq<Block>, i: nat, a: nat): seq<Block>
    requires i < |bs| && a + HEADER <= bs[i].size
  {
    bs[..i] + [bs[i].(size := a), Block(bs[i].addr + HEADER + a, bs[i].size - a - HEADER, true)] + bs[i + 1..]
  }

  lemma SplitChain(m: seq<Byte>, m': seq<Byte>, base: nat, bs: seq<Block>, i: nat, a: nat)
    requires Tiles(bs, base, base + |m|) && Chain(m, base, bs)
    requires i < |bs| && a + HEADER <= bs[i].size
    requires HeaderAt(m', base, bs[i].(size := a), bs[i].addr + HEADER + a)
    requires HeaderAt(m', base, Block(bs[i].addr + HEADER + a, bs[i].size - a - HEADER, true), NextOf(bs, i))
    requires SameOutside(m, m', base, bs[i].addr, End(bs[i]))
    ensures Chain(m', base, SplitAt(bs, i, a))
  {
    var bs' := SplitAt(bs, i, a);
    forall j | 0 <= j < |bs'|
      ensures Linked(m', base, bs', j)
    {
      if j < i || j > i + 1 {
        var k := if j < i then j else j - 1;
        assert Linked(m, base, bs, k);
        if j < i {
          Ordered(bs, base, base + |m|, k, i);
        } else {
          Ordered(bs, base, base + |m|, i, k);
        }
        HeaderKept(m, m', base, bs, k, bs[i].addr, End(bs[i]));
        assert bs'[j] == bs[k] && NextOf(bs', j) == NextOf(bs, k);
      }
    }
  }

  /** `kmalloc` writes the header of the new block, then the links of the old one. */
  lemma SplitMemory(m0: seq<Byte>, m1: seq<Byte>, m2: seq<Byte>, base: nat, bs: seq<Block>, i: nat, a: nat, rest: Block)
    requires Tiles(bs, base, base + |m0|) && Chain(m0, base, bs)
    requires i < |bs| && a + HEADER <= bs[i].size
    requires rest == Block(bs[i].addr + HEADER + a, bs[i].size - a - HEADER, true)
    requires HeaderAt(m1, base, rest, NextOf(bs, i)) && SameOutside(m0, m1, base, rest.addr, rest.addr + HEADER)
    requires HeaderAt(m2, base, bs[i].(size := a), rest.addr)
    requires SameOutside(m1, m2, base, bs[i].addr, bs[i].addr + HEADER)
    ensures Chain(m2, base, SplitAt(bs, i, a))
    ensures SameOutside(m0, m2, base, bs[i].addr, End(bs[i]))
  {
    HeaderFrame(m1, m2, base, rest, NextOf(bs, i));
    SplitChain(m0, m2, base, bs, i, a);
  }

  /** Blocks `i` and `i + 1` joined into one. */
  ghost function MergeAt(bs: seq<Block>, i: nat): seq<Block>
    requires i + 1 < |bs|
  {
    bs[..i] + [bs[i].(size := bs[i].size + HEADER + bs[i + 1].size)] + bs[i + 2..]
  }

  lemma MergeChain(m: seq<Byte>, m': seq<Byte>, base: nat, bs: seq<Block>, i: nat)
    requires Tiles(bs, base, base + |m|) && Chain(m, base, bs) && i + 1 < |bs|
    requires HeaderAt(m', base, MergeAt(bs, i)[i], NextOf(bs, i + 1))
    requires SameOutside(m, m', base, bs[i].addr, bs[i].addr + HEADER)
    ensures Chain(m', base, MergeAt(bs, i))
  {
    var bs' := MergeAt(bs, i);
    forall j | 0 <= j < |bs'|
      ensures Linked(m', base, bs', j)
    {
      if j != i {
        var k := if j < i then j else j + 1;
        assert Linked(m, base, bs, k);
        if j < i {
          Ordered(bs, base, base + |m|, k, i);
        } else {
          Ordered(bs, base, base + |m|, i, k);
        }
        HeaderKept(m, m', base, bs, k, bs[i].addr, bs[i].addr + HEADER);
        assert bs'[j] == bs[k] && NextOf(bs', j) == NextOf(bs, k);
      }
    }
  }

  // ---------- Payloads in memory ----------

  ghost predicate SamePayloads(m: seq<Byte>, m': seq<Byte>, base: nat, live: set<Block>) {
    forall b :: b in live ==> SamePayload(m, m', base, b)
  }

  lemma PayloadsTrans(m0: seq<Byte>, m1: seq<Byte>, m2: seq<Byte>, base: nat, live: set<Block>)
    requires SamePayloads(m0, m1, base, live) && SamePayloads(m1, m2, base, live)
    requires |m0| == |m1| == |m2|
    ensures SamePayloads(m0, m2, base, live)
  {
  }

  /** Headers, and free blocks as a whole, are no part of any live payload. */
  lemma PayloadsKept(m: seq<Byte>, m': seq<Byte>, base: nat, bs: seq<Block>, i: nat, to: nat)
    requires Tiles(bs, base, base + |m|) && i < |bs|
    requires to <= bs[i].addr + HEADER || (bs[i].free && to <= End(bs[i]))
    requires SameOutside(m, m', base, bs[i].addr, to)
    ensures SamePayloads(m, m', base, Live(bs))
  {
    Disjoint(bs, base, base + |m|);
  }

  lemma PokeChain(m: seq<Byte>, m': seq<Byte>, base: nat, bs: seq<Block>, k: nat, b: Block)
    requires Tiles(bs, base, base + |m|) && Chain(m, base, bs)
    requires b in Live(bs) && k < |m| && b.addr + HEADER <= base + k < End(b)
    requires SameOutside(m, m', base, base + k, base + k + 1)
    ensures Chain(m', base, bs)
  {
    Disjoint(bs, base, base + |m|);
    forall i | 0 <= i < |bs|
      ensures Linked(m', base, bs, i)
    {
      assert Linked(m, base, bs, i);
      HeaderFrame(m, m', base, bs[i], NextOf(bs, i));
    }
  }

  // ---------- Block-list steps ----------

  lemma LiveConcat(a: seq<Block>, b: seq<Block>)
    ensures Live(a + b) == Live(a) + Live(b)
  {
  }

  lemma SplitTiles(bs: seq<Block>, lo: nat, hi: nat, i: nat, a: nat)
    requires Tiles(bs, lo, hi)
    requires i < |bs| && a + HEADER <= bs[i].size
    ensures Tiles(SplitAt(bs, i, a), lo, hi)
  {
  }

  lemma SplitAligned(bs: seq<Block>, lo: nat, i: nat, a: nat)
    requires Aligned(bs, lo)
    requires i < |bs| && a + HEADER <= bs[i].size && a % 8 == 0
    ensures Aligned(SplitAt(bs, i, a), lo)
  {
  }

  lemma SplitLive(bs: seq<Block>, i: nat, a: nat)
    requires i < |bs| && a + HEADER <= bs[i].size && bs[i].free
    ensures Live(SplitAt(bs, i, a)) == Live(bs)
  {
  }

  lemma MergeTiles(bs: seq<Block>, lo: nat, hi: nat, i: nat)
    requires Tiles(bs, lo, hi) && Aligned(bs, lo) && i + 1 < |bs|
    ensures Tiles(MergeAt(bs, i), lo, hi) && Aligned(MergeAt(bs, i), lo)
  {
    assert End(bs[i]) == bs[i + 1].addr;
  }

  lemma MergeLive(bs: seq<Block>, i: nat)
    requires i + 1 < |bs| && bs[i].free && bs[i + 1].free
    ensures Live(MergeAt(bs, i)) == Live(bs)
  {
  }

  /** Changing the flag of one block. */
  lemma FlagTiles(bs: seq<Block>, lo: nat, hi: nat, i: nat, flag: bool)
    requires Tiles(bs, lo, hi) && Aligned(bs, lo) && i < |bs|
    ensures Tiles(bs[i := bs[i].(free := flag)], lo, hi) && Aligned(bs[i := bs[i].(free := flag)], lo)
  {
  }

  lemma UseLive(bs: seq<Block>, lo: nat, hi: nat, i: nat)
    requires Tiles(bs, lo, hi) && i < |bs| && bs[i].free
    ensures bs[i].(free := false) !in Live(bs)
    ensures Live(bs[i := bs[i].(free := false)]) == Live(bs) + {bs[i].(free := false)}
  {
    var used := bs[i].(free := false);
    Disjoint(bs, lo, hi);
    assert bs == bs[..i] + [bs[i]] + bs[i + 1..];
    assert bs[i := used] == bs[..i] + [used] + bs[i + 1..];
    LiveConcat(bs[..i] + [bs[i]], bs[i + 1..]);
    LiveConcat(bs[..i], [bs[i]]);
    LiveConcat(bs[..i] + [used], bs[i + 1..]);
    LiveConcat(bs[..i], [used]);
  }

  lemma ReleaseLive(bs: seq<Block>, lo: nat, hi: nat, i: nat)
    requires Tiles(bs, lo, hi) && Aligned(bs, lo) && i < |bs| && !bs[i].free
    ensures Live(bs[i := bs[i].(free := true)]) == Live(bs) - {bs[i]}
  {
    var bs' := bs[i := bs[i].(free := true)];
    FlagTiles(bs, lo, hi, i, true);
    UseLive(bs', lo, hi, i);
    assert bs == bs'[i := bs[i]];
  }

  /** The index of the first free block of at least `a` bytes, or the length of the list. */
  ghost function FirstFitIndex(bs: seq<Block>, a: nat): (k: nat)
    ensures k <= |bs|
    ensures k < |bs| ==> bs[k].free && bs[k].size >= a
    ensures forall j :: 0 <= j < k ==> !(bs[j].free && bs[j].size >= a)
  {
    if bs == [] || (bs[0].free && bs[0].size >= a) then 0 else 1 + FirstFitIndex(bs[1..], a)
  }

  /** First fit in the list is lowest fit in memory. */
  lemma FirstFitIsLowest(bs: seq<Block>, lo: nat, hi: nat, i: nat, len: nat)
    requires Tiles(bs, lo, hi) && NoAdjacentFree(bs)
    requires i < |bs| && bs[i].free && bs[i].size + HEADER >= len > 0
    requires forall j :: 0 <= j < i ==> !(bs[j].free && bs[j].size + HEADER >= len)
    ensures LowestFit(Live(bs), lo, hi, bs[i].addr, len)
  {
    FreeBlockFits(bs, lo, hi, i, bs[i].addr, len);
    Disjoint(bs, lo, hi);
    forall t: nat | t < bs[i].addr
      ensures !Fits(Live(bs), lo, hi, t, len)
    {
      if Fits(Live(bs), lo, hi, t, len) {
        var j := FitsInOneBlock(bs, lo, hi, t, len);
        assert false;
      }
    }
  }

  lemma NoBlockFitsNowhere(bs: seq<Block>, lo: nat, hi: nat, len: nat)
    requires Ok(bs, lo, hi) && len >= HEADER
    requires forall j :: 0 <= j < |bs| ==> !(bs[j].free && bs[j].size + HEADER >= len)
    ensures FitsNowhere(Live(bs), lo, hi, len)
  {
    forall s: nat
      ensures !Fits(Live(bs), lo, hi, s, len)
    {
      if bs != [] && Fits(Live(bs), lo, hi, s, len) {
        var j := FitsInOneBlock(bs, lo, hi, s, len);
        assert false;
      }
    }
  }

  /** What follows a free block is a live block or the end of the heap. */
  lemma AfterFree(bs: seq<Block>, lo: nat, hi: nat, i: nat)
    requires Tiles(bs, lo, hi) && NoAdjacentFree(bs) && i < |bs| && bs[i].free
    ensures Taken(Live(bs), hi, End(bs[i]))
  {
    if i + 1 < |bs| {
      assert End(bs[i]) == bs[i + 1].addr;
      assert bs[i + 1] in Live(bs);
    }
  }

  /** The block list after `kmalloc` has served its request from block `i`. */
  ghost function Served(bs: seq<Block>, i: nat, a: nat): seq<Block>
    requires i < |bs| && bs[i].size >= a
  {
    var cut := if bs[i].size >= a + HEADER + 8 then SplitAt(bs, i, a) else bs;
    cut[i := cut[i].(free := false)]
  }

  lemma ServedWellFormed(bs: seq<Block>, lo: nat, hi: nat, i: nat, a: nat)
    requires WellFormed(bs, lo, hi)
    requires i < |bs| && bs[i].free && bs[i].size >= a && a % 8 == 0
    ensures WellFormed(Served(bs, i, a), lo, hi)
    ensures var g := if bs[i].size >= a + HEADER + 8 then a else bs[i].size;
      && Block(bs[i].addr, g, false) !in Live(bs)
      && Live(Served(bs, i, a)) == Live(bs) + {Block(bs[i].addr, g, false)}
  {
    if bs[i].size >= a + HEADER + 8 {
      var cut := SplitAt(bs, i, a);
      SplitTiles(bs, lo, hi, i, a);
      SplitAligned(bs, lo, i, a);
      SplitLive(bs, i, a);
      FlagTiles(cut, lo, hi, i, false);
      UseLive(cut, lo, hi, i);
    } else {
      FlagTiles(bs, lo, hi, i, false);
      UseLive(bs, lo, hi, i);
    }
  }

  lemma ServedFits(bs: seq<Block>, lo: nat, hi: nat, i: nat, a: nat)
    requires Tiles(bs, lo, hi) && NoAdjacentFree(bs)
    requires i < |bs| && bs[i].free && bs[i].size >= a
    ensures var g := if bs[i].size >= a + HEADER + 8 then a else bs[i].size;
      && Fits(Live(bs), lo, hi, bs[i].addr, HEADER + g)
      && if g == a then Taken(Live(bs), hi, bs[i].addr + HEADER + g)
                        || Fits(Live(bs), lo, hi, bs[i].addr + HEADER + g, HEADER + 8)
         else Taken(Live(bs), hi, bs[i].addr + HEADER + g)
  {
    AfterFree(bs, lo, hi, i);
    if bs[i].size >= a + HEADER + 8 {
      FreeBlockFits(bs, lo, hi, i, bs[i].addr, HEADER + a);
      FreeBlockFits(bs, lo, hi, i, bs[i].addr + HEADER + a, HEADER + 8);
    } else {
      FreeBlockFits(bs, lo, hi, i, bs[i].addr, HEADER + bs[i].size);
    }
  }

  /** Any list whose live blocks are those of `bs` and the served block meets the `kmalloc` contract. */
  lemma GrantedFrom(bs: seq<Block>, bs': seq<Block>, lo: nat, hi: nat, i: nat, a: nat)
    requires Tiles(bs, lo, hi) && NoAdjacentFree(bs)
    requires i < |bs| && bs[i].free && bs[i].size >= a
    requires forall j :: 0 <= j < i ==> !(bs[j].free && bs[j].size >= a)
    requires var g := if bs[i].size >= a + HEADER + 8 then a else bs[i].size;
      && Block(bs[i].addr, g, false) !in Live(bs)
      && Live(bs') == Live(bs) + {Block(bs[i].addr, g, false)}
    ensures Granted(bs, bs', lo, hi, a, bs[i].addr + HEADER)
  {
    FirstFitIsLowest(bs, lo, hi, i, HEADER + a);
    ServedFits(bs, lo, hi, i, a);
    var g := if bs[i].size >= a + HEADER + 8 then a else bs[i].size;
    assert GrantedSize(bs, bs', lo, hi, a, bs[i].addr + HEADER, g);
  }

  lemma ServedMeetsContract(bs: seq<Block>, bs': seq<Block>, lo: nat, hi: nat, i: nat, n: nat, p: nat)
    requires Ok(bs, lo, hi) && n > 0
    requires i < |bs| && bs[i].free && bs[i].size >= AlignUp8(n)
    requires forall j :: 0 <= j < i ==> !(bs[j].free && bs[j].size >= AlignUp8(n))
    requires bs' == Served(bs, i, AlignUp8(n)) && p == bs[i].addr + HEADER
    ensures Alloc(bs, bs', lo, hi, n, p)
  {
    ServedWellFormed(bs, lo, hi, i, AlignUp8(n));
    GrantedFrom(bs, bs', lo, hi, i, AlignUp8(n));
  }

  // ---------- The allocator ----------

  /** The heap between `base` and `base + mem.Length`; address `a` is stored at `mem[a - base]`. */
  class KernelHeap {
    const base: nat
    const mem: array<Byte>
    var head: nat               // free_list_head; 0 is the null pointer
    ghost var blocks: seq<Block>

    ghost function Limit(): nat {
      base + mem.Length
    }

    ghost predicate Linkage()
      reads this, mem
    {
      && 8 < base && Limit() <= WORD
      && blocks != [] && head == base
      && Tiles(blocks, base, Limit()) && Aligned(blocks, base)
      && Chain(mem[..], base, blocks)
    }

    ghost predicate Valid()
      reads this, mem
    {
      && 8 < base && Limit() <= WORD
      && Ok(blocks, base, Limit())
      && if blocks == [] then head == 0 else Linkage()
    }

    /** Writes the size and the link of the header at `b.addr`, leaving its flag. */
    method StoreLinks(b: Block, next: nat)
      requires base <= b.addr && End(b) <= Limit() <= WORD && next < WORD
      requires (mem[b.addr - base + 8] != 0) == b.free
      modifies mem
      ensures HeaderAt(mem[..], base, b, next)
      ensures SameOutside(old(mem[..]), mem[..], base, b.addr, b.addr + HEADER)
    {
      StoreWord(mem, b.addr - base, b.size);
      ghost var m := mem[..];
      StoreWord(mem, b.addr - base + 16, next);
      SameWord(m, mem[..], b.addr - base);
    }

    /** Writes a whole header. */
    method StoreHeader(b: Block, next: nat)
      requires base <= b.addr && End(b) <= Limit() <= WORD && next < WORD
      modifies mem
      ensures HeaderAt(mem[..], base, b, next)
      ensures SameOutside(old(mem[..]), mem[..], base, b.addr, b.addr + HEADER)
    {
      mem[b.addr - base + 8] := if b.free then 1 else 0;
      StoreLinks(b, next);
    }

    /** `init_heap` */
    constructor (heapStart: nat, memory: array<Byte>)
      requires 8 < heapStart && heapStart + memory.Length <= WORD
      modifies memory
      ensures Valid() && base == heapStart && mem == memory
      ensures blocks == Initial(heapStart, heapStart + memory.Length)
    {
      base := heapStart;
      mem := memory;
      head := if memory.Length < HEADER then 0 else heapStart;
      blocks := Initial(heapStart, heapStart + memory.Length);
      new;
      InitialOk(base, Limit());
      if memory.Length >= HEADER {
        StoreHeader(Block(base, mem.Length - HEADER, true), 0);
      }
    }

    /** The next header of the chain, as the code reads it: `current->next`. */
    method Next(current: nat, ghost k: nat) returns (next: nat)
      requires Linkage() && k < |blocks| && blocks[k].addr == current
      ensures next == NextOf(blocks, k) && next < WORD
      ensures next != 0 <==> k + 1 < |blocks|
    {
      assert Linked(mem[..], base, blocks, k);
      Disjoint(blocks, base, Limit());
      var m := mem[current - base + 16..current - base + 24];
      assert m == mem[..][current - base + 16..current - base + 24];
      next := Decode(m);
      WordBound();
    }

    /** The size field of a header: `current->size`. */
    method Size(current: nat, ghost k: nat) returns (size: nat)
      requires Linkage() && k < |blocks| && blocks[k].addr == current
      ensures size == blocks[k].size
    {
      assert Linked(mem[..], base, blocks, k);
      Disjoint(blocks, base, Limit());
      var m := mem[current - base..current - base + 8];
      assert m == mem[..][current - base..current - base + 8];
      size := Decode(m);
    }

    /** The flag of a header: `current->is_free`. */
    method IsFree(current: nat, ghost k: nat) returns (free: bool)
      requires Linkage() && k < |blocks| && blocks[k].addr == current
      ensures free == blocks[k].free
    {
      assert Linked(mem[..], base, blocks, k);
      Disjoint(blocks, base, Limit());
      free := mem[current - base + 8] != 0;
    }

    /** Cuts block `k` so that its payload has `a` bytes and the rest becomes a free block. */
    method Split(current: nat, a: nat, ghost k: nat)
      requires Linkage() && k < |blocks| && blocks[k].addr == current && blocks[k].free
      requires a % 8 == 0 && a + HEADER <= blocks[k].size
      modifies this`blocks, mem
      ensures Linkage() && blocks == SplitAt(old(blocks), k, a)
      ensures SameOutside(old(mem[..]), mem[..], base, current, End(old(blocks)[k]))
    {
      var size := Size(current, k);
      var next := Next(current, k);
      InRange(k);
      ghost var m0 := mem[..];
      assert Linked(m0, base, blocks, k);
      var rest := Block(current + HEADER + a, size - a - HEADER, true);
      StoreHeader(rest, next);
      ghost var m1 := mem[..];
      assert m1[current - base + 8] == m0[current - base + 8];
      StoreLinks(Block(current, a, true), rest.addr);
      assert blocks[k].(size := a) == Block(current, a, true);
      SplitMemory(m0, m1, mem[..], base, blocks, k, a, rest);
      SplitTiles(blocks, base, Limit(), k, a);
      SplitAligned(blocks, base, k, a);
      blocks := SplitAt(blocks, k, a);
    }

    /** Sets the flag of block `k`. */
    method SetFree(current: nat, flag: bool, ghost k: nat)
      requires Linkage() && k < |blocks| && blocks[k].addr == current
      modifies this`blocks, mem
      ensures Linkage() && blocks == old(blocks[k := blocks[k].(free := flag)])
      ensures SameOutside(old(mem[..]), mem[..], base, current, current + HEADER)
    {
      InRange(k);
      ghost var m := mem[..];
      mem[current - base + 8] := if flag then 1 else 0;
      FlagChain(m, mem[..], base, blocks, k, flag);
      FlagTiles(blocks, base, Limit(), k, flag);
      blocks := blocks[k := blocks[k].(free := flag)];
    }

    /** Joins block `k` with the one after it. */
    method Merge(current: nat, ghost k: nat)
      requires Linkage() && k + 1 < |blocks| && blocks[k].addr == current
      modifies this`blocks, mem
      ensures Linkage() && blocks == MergeAt(old(blocks), k)
      ensures SameOutside(old(mem[..]), mem[..], base, current, current + HEADER)
    {
      var size := Size(current, k);
      var next := Next(current, k);
      var nextSize := Size(next, k + 1);
      var nextNext := Next(next, k + 1);
      InRange(k);
      InRange(k + 1);
      ghost var m := mem[..];
      assert Linked(m, base, blocks, k);
      var joined := Block(current, size + HEADER + nextSize, mem[current - base + 8] != 0);
      assert End(joined) == End(blocks[k + 1]) && joined == MergeAt(blocks, k)[k] by {
        assert End(blocks[k]) == blocks[k + 1].addr;
      }
      StoreLinks(joined, nextNext);
      MergeChain(m, mem[..], base, blocks, k);
      MergeTiles(blocks, base, Limit(), k);
      blocks := MergeAt(blocks, k);
    }

    /** Serves a request from block `k`, the first that is large enough. */
    method Serve(current: nat, n: nat, ghost k: nat) returns (p: nat)
      requires Valid() && n > 0
      requires k < |blocks| && blocks[k].addr == current && blocks[k].free && blocks[k].size >= AlignUp8(n)
      requires forall j :: 0 <= j < k ==> !(blocks[j].free && blocks[j].size >= AlignUp8(n))
      modifies this`blocks, mem
      ensures Valid() && Alloc(old(blocks), blocks, base, Limit(), n, p)
      ensures SamePayloads(old(mem[..]), mem[..], base, old(Live(blocks)))
    {
      Take(current, AlignUp8(n), k);
      p := current + HEADER;
      ServedMeetsContract(old(blocks), blocks, base, Limit(), k, n, p);
    }

    /** Takes `a` bytes from free block `k`, splitting it if another block fits in the rest. */
    method Take(current: nat, a: nat, ghost k: nat)
      requires Linkage()
      requires k < |blocks| && blocks[k].addr == current && blocks[k].free && blocks[k].size >= a && a % 8 == 0
      modifies this`blocks, mem
      ensures Linkage() && blocks == Served(old(blocks), k, a)
      ensures SamePayloads(old(mem[..]), mem[..], base, old(Live(blocks)))
    {
      InRange(k);
      var size := Size(current, k);
      if size >= (a + HEADER + 8) % WORD {
        Split(current, a, k);
      }
      SetFree(current, false, k);
      PayloadsKept(old(mem[..]), mem[..], base, old(blocks), k, old(End(blocks[k])));
    }

    /** The search of `kmalloc`: the first free block of at least `a` bytes, or null. */
    method FirstFit(a: nat) returns (current: nat)
      requires Valid()
      ensures var k := FirstFitIndex(blocks, a);
        current == (if k < |blocks| then blocks[k].addr else 0) && (current == 0 <==> k == |blocks|)
    {
      current := head;
      ghost var k := 0;
      while current != 0
        invariant k <= |blocks| && current == (if k < |blocks| then blocks[k].addr else 0)
        invariant current == 0 <==> k == |blocks|
        invariant forall j :: 0 <= j < k ==> !(blocks[j].free && blocks[j].size >= a)
        decreases |blocks| - k
      {
        var free := IsFree(current, k);
        var size := Size(current, k);
        if free && size >= a {
          return;
        }
        current := Next(current, k);
        k := k + 1;
      }
    }

    /** `kmalloc`: no byte of any live payload changes. */
    method Malloc(n: nat) returns (p: nat)
      requires Valid() && n < WORD
      modifies this`blocks, mem
      ensures Valid() && Alloc(old(blocks), blocks, base, Limit(), n, p)
      ensures SamePayloads(old(mem[..]), mem[..], base, old(Live(blocks)))
    {
      if n == 0 {
        return 0;
      }
      var a := AlignUp8(n);
      var current := FirstFit(a);
      ghost var k := FirstFitIndex(blocks, a);
      if current == 0 {
        NoBlockFitsNowhere(blocks, base, Limit(), HEADER + a);
        return 0;
      }
      p := Serve(current, n, k);
    }

    /** `kfree` of a null pointer or of the payload of a live block: no byte of another live payload changes. */
    method Free(p: nat)
      requires Valid()
      requires p == 0 || exists b :: b in Live(blocks) && b.addr + HEADER == p
      modifies this`blocks, mem
      ensures Valid() && HeapSpec.Free(old(blocks), blocks, base, Limit(), p)
      ensures SamePayloads(old(mem[..]), mem[..], base, Live(blocks))
    {
      if p == 0 {
        return;
      }
      ghost var x :| x in Live(blocks) && x.addr + HEADER == p;
      ghost var i :| 0 <= i < |blocks| && blocks[i] == x;
      ReleaseLive(blocks, base, Limit(), i);
      ghost var was := blocks;
      SetFree(p - HEADER, true, i);
      PayloadsKept(old(mem[..]), mem[..], base, was, i, p);
      ghost var m := mem[..];
      Coalesce();
      PayloadsTrans(old(mem[..]), m, mem[..], base, Live(blocks));
    }

    /** The sweep of `kfree`: joins adjacent free blocks. */
    method Coalesce()
      requires Linkage()
      modifies this`blocks, mem
      ensures Linkage() && NoAdjacentFree(blocks) && Live(blocks) == old(Live(blocks))
      ensures SamePayloads(old(mem[..]), mem[..], base, old(Live(blocks)))
    {
      var current := head;
      ghost var k := 0;
      var next := Next(current, k);
      while next != 0
        invariant Linkage() && Live(blocks) == old(Live(blocks))
        invariant k < |blocks| && current == blocks[k].addr
        invariant next == NextOf(blocks, k) && (next != 0 <==> k + 1 < |blocks|)
        invariant forall i, j :: 0 <= i && j == i + 1 && j <= k ==> !(blocks[i].free && blocks[j].free)
        invariant SamePayloads(old(mem[..]), mem[..], base, old(Live(blocks)))
        decreases |blocks| - k
      {
        var free := IsFree(current, k);
        var nextFree := IsFree(next, k + 1);
        if free && nextFree {
          MergeLive(blocks, k);
          ghost var m, was := mem[..], blocks;
          Merge(current, k);
          PayloadsKept(m, mem[..], base, was, k, current + HEADER);
          PayloadsTrans(old(mem[..]), m, mem[..], base, old(Live(blocks)));
        } else {
          current := next;
          k := k + 1;
        }
        next := Next(current, k);
      }
    }

    lemma InRange(k: nat)
      requires Tiles(blocks, base, Limit()) && k < |blocks|
      ensures base <= blocks[k].addr && End(blocks[k]) <= Limit()
    {
      Disjoint(blocks, base, Limit());
    }

    /** A client writes a byte of memory it owns: the heap is not disturbed. */
    method Poke(k: nat, v: Byte, ghost b: Block)
      requires Valid() && b in Live(blocks) && k < mem.Length && b.addr + HEADER <= base + k < End(b)
      modifies mem
      ensures Valid()
      ensures mem[..] == old(mem[..])[k := v]
    {
      ghost var m := mem[..];
      mem[k] := v;
      PokeChain(m, mem[..], base, blocks, k, b);
    }
  }
}
