/** Consequences of the `kmalloc` and `kfree` contracts, for one call, for pairs of calls, and for runs. */
module HeapLaws {
  import opened Bytes
  import opened HeapSpec

  // ---------- What one call determines ----------

  /** Two live blocks with the same address are the same block. */
  lemma LiveUnique(bs: seq<Block>, lo: nat, hi: nat, b: Block, c: Block)
    requires Ok(bs, lo, hi) && b in Live(bs) && c in Live(bs)
    ensures b == c || End(b) <= c.addr || End(c) <= b.addr
    ensures lo <= b.addr && End(b) <= hi && (b.addr - lo) % 8 == 0
  {
    Disjoint(bs, lo, hi);
  }

  /** The size granted at an address is fixed by the live blocks. */
  lemma GrantUnique(bs: seq<Block>, b1: seq<Block>, b2: seq<Block>, lo: nat, hi: nat, a: nat, p: nat, g1: nat, g2: nat)
    requires p >= HEADER
    requires GrantedSize(bs, b1, lo, hi, a, p, g1) && GrantedSize(bs, b2, lo, hi, a, p, g2)
    ensures g1 == g2
  {
  }

  lemma LowestFitUnique(live: set<Block>, lo: nat, hi: nat, s: nat, t: nat, len: nat)
    requires LowestFit(live, lo, hi, s, len) && LowestFit(live, lo, hi, t, len)
    ensures s == t
  {
  }

  lemma GrantDeterministic(bs: seq<Block>, b1: seq<Block>, b2: seq<Block>, lo: nat, hi: nat, a: nat, p1: nat, p2: nat)
    requires Ok(b1, lo, hi) && Ok(b2, lo, hi)
    requires Granted(bs, b1, lo, hi, a, p1) && Granted(bs, b2, lo, hi, a, p2)
    ensures p1 == p2 && b1 == b2
  {
    LowestFitUnique(Live(bs), lo, hi, p1 - HEADER, p2 - HEADER, HEADER + a);
    var g1: nat :| GrantedSize(bs, b1, lo, hi, a, p1, g1);
    var g2: nat :| GrantedSize(bs, b2, lo, hi, a, p2, g2);
    GrantUnique(bs, b1, b2, lo, hi, a, p1, g1, g2);
    OkCanonical(b1, b2, lo, hi);
  }

  /** The contract of `kmalloc` leaves no choice: pointer and heap are functions of the heap and `n`. */
  lemma AllocDeterministic(bs: seq<Block>, b1: seq<Block>, b2: seq<Block>, lo: nat, hi: nat, n: nat, p1: nat, p2: nat)
    requires Alloc(bs, b1, lo, hi, n, p1) && Alloc(bs, b2, lo, hi, n, p2)
    ensures p1 == p2 && b1 == b2
  {
    if n > 0 {
      AllocFailsIffFitsNowhere(bs, b1, lo, hi, n, p1);
      AllocFailsIffFitsNowhere(bs, b2, lo, hi, n, p2);
      if p1 != 0 {
        GrantDeterministic(bs, b1, b2, lo, hi, AlignUp8(n), p1, p2);
      }
    }
  }

  lemma FreeDeterministic(bs: seq<Block>, b1: seq<Block>, b2: seq<Block>, lo: nat, hi: nat, p: nat)
    requires Ok(bs, lo, hi)
    requires Free(bs, b1, lo, hi, p) && Free(bs, b2, lo, hi, p)
    ensures b1 == b2
  {
    if p != 0 {
      var x :| x in Live(bs) && x.addr + HEADER == p && Live(b1) == Live(bs) - {x};
      var y :| y in Live(bs) && y.addr + HEADER == p && Live(b2) == Live(bs) - {y};
      LiveUnique(bs, lo, hi, x, y);
      OkCanonical(b1, b2, lo, hi);
    }
  }

  /** `kmalloc` fails exactly when the request fits nowhere between the live blocks. */
  lemma AllocFailsIffFitsNowhere(bs: seq<Block>, bs': seq<Block>, lo: nat, hi: nat, n: nat, p: nat)
    requires Alloc(bs, bs', lo, hi, n, p) && n > 0
    ensures p == 0 <==> FitsNowhere(Live(bs), lo, hi, HEADER + AlignUp8(n))
  {
  }

  /** A granted block is at least as large as asked exactly when `align_8` does not wrap around. */
  lemma GrantCoversRequestIff(bs: seq<Block>, bs': seq<Block>, lo: nat, hi: nat, n: nat, p: nat, g: nat)
    requires 0 < n < WORD && p >= HEADER
    requires GrantedSize(bs, bs', lo, hi, AlignUp8(n), p, g)
    ensures g >= n <==> n <= WORD - 8
    ensures n <= WORD - 8 ==> g < n + 39
  {
    if n > WORD - 8 {
      assert AlignUp8(n) == 0;
    }
  }

  // ---------- Pairs of calls ----------

  /** Freeing what was just allocated restores exactly the previous block list. */
  lemma FreeUndoesAlloc(bs: seq<Block>, b1: seq<Block>, b2: seq<Block>, lo: nat, hi: nat, n: nat, p: nat)
    requires Ok(bs, lo, hi)
    requires Alloc(bs, b1, lo, hi, n, p) && Free(b1, b2, lo, hi, p)
    ensures b2 == bs
  {
    if p != 0 {
      var g: nat :| GrantedSize(bs, b1, lo, hi, AlignUp8(n), p, g);
      var c :| c in Live(b1) && c.addr + HEADER == p && Live(b2) == Live(b1) - {c};
      LiveUnique(b1, lo, hi, c, Block(p - HEADER, g, false));
      assert Live(b2) == Live(bs);
      OkCanonical(b2, bs, lo, hi);
    }
  }

  /** Two frees give the same heap in either order. */
  lemma FreesCommute(bs: seq<Block>, bp: seq<Block>, bpq: seq<Block>, bq: seq<Block>, bqp: seq<Block>,
                     lo: nat, hi: nat, p: nat, q: nat)
    requires Ok(bs, lo, hi)
    requires Free(bs, bp, lo, hi, p) && Free(bp, bpq, lo, hi, q)
    requires Free(bs, bq, lo, hi, q) && Free(bq, bqp, lo, hi, p)
    ensures bpq == bqp
  {
    if p != 0 && q != 0 {
      var x :| x in Live(bs) && x.addr + HEADER == p && Live(bp) == Live(bs) - {x};
      var y :| y in Live(bs) && y.addr + HEADER == q && Live(bq) == Live(bs) - {y};
      var y' :| y' in Live(bp) && y'.addr + HEADER == q && Live(bpq) == Live(bp) - {y'};
      var x' :| x' in Live(bq) && x'.addr + HEADER == p && Live(bqp) == Live(bq) - {x'};
      LiveUnique(bs, lo, hi, x, x');
      LiveUnique(bs, lo, hi, y, y');
      assert Live(bpq) == Live(bqp);
      OkCanonical(bpq, bqp, lo, hi);
    } else if p == 0 {
      FreeDeterministic(bs, bpq, bqp, lo, hi, q);
    } else {
      FreeDeterministic(bs, bpq, bqp, lo, hi, p);
    }
  }

  // ---------- Runs ----------

  datatype Call = Malloc(n: nat) | Release(p: nat)

  ghost predicate Step(bs: seq<Block>, bs': seq<Block>, lo: nat, hi: nat, c: Call) {
    match c
    case Malloc(n) => exists p: nat :: Alloc(bs, bs', lo, hi, n, p)
    case Release(p) => Free(bs, bs', lo, hi, p)
  }

  /** `states` are the heaps a client sees when it makes `calls` one after the other from `init_heap`. */
  ghost predicate Run(states: seq<seq<Block>>, calls: seq<Call>, lo: nat, hi: nat) {
    && lo <= hi
    && |states| == |calls| + 1
    && states[0] == Initial(lo, hi)
    && forall i :: 0 <= i < |calls| ==> Step(states[i], states[i + 1], lo, hi, calls[i])
  }

  /** Bytes of a block list, headers included. */
  function Extent(bs: seq<Block>): nat {
    if bs == [] then 0 else HEADER + bs[0].size + Extent(bs[1..])
  }

  lemma {:induction false} ExtentOfTiling(bs: seq<Block>, lo: nat, hi: nat)
    requires Tiles(bs, lo, hi)
    ensures hi == lo + Extent(bs)
    decreases |bs|
  {
    if bs != [] {
      assert bs[1..] != [] ==> bs[1].addr == End(bs[0]);
      ExtentOfTiling(bs[1..], End(bs[0]), hi);
    }
  }

  /** Every reachable heap is tiled exactly, without adjacent free blocks, and accounts for every byte. */
  lemma ReachableHeap(states: seq<seq<Block>>, calls: seq<Call>, lo: nat, hi: nat, k: nat)
    requires Run(states, calls, lo, hi) && k < |states|
    ensures Ok(states[k], lo, hi)
    ensures hi - lo >= HEADER ==> Extent(states[k]) == hi - lo
    ensures forall b, c :: b in Live(states[k]) && c in Live(states[k]) ==>
              b == c || End(b) <= c.addr || End(c) <= b.addr
    ensures forall b :: b in Live(states[k]) ==> lo <= b.addr && End(b) <= hi && (b.addr - lo) % 8 == 0
  {
    if k == 0 {
      InitialOk(lo, hi);
    } else {
      assert Step(states[k - 1], states[k - 1 + 1], lo, hi, calls[k - 1]);
    }
    if hi - lo >= HEADER {
      ExtentOfTiling(states[k], lo, hi);
    }
    forall b, c | b in Live(states[k]) && c in Live(states[k])
      ensures b == c || End(b) <= c.addr || End(c) <= b.addr
      ensures lo <= b.addr && End(b) <= hi && (b.addr - lo) % 8 == 0
    {
      LiveUnique(states[k], lo, hi, b, c);
    }
  }

  /** History leaves no trace: runs that end with the same live blocks end with the same heap. */
  lemma HistoryIndependent(s1: seq<seq<Block>>, c1: seq<Call>, s2: seq<seq<Block>>, c2: seq<Call>, lo: nat, hi: nat)
    requires Run(s1, c1, lo, hi) && Run(s2, c2, lo, hi)
    requires Live(s1[|c1|]) == Live(s2[|c2|])
    ensures s1[|c1|] == s2[|c2|]
  {
    ReachableHeap(s1, c1, lo, hi, |c1|);
    ReachableHeap(s2, c2, lo, hi, |c2|);
    OkCanonical(s1[|c1|], s2[|c2|], lo, hi);
  }

  /** Freeing every live block, in any order, gives back the heap of `init_heap`. */
  lemma {:induction false} FreeAllRestoresInitial(states: seq<seq<Block>>, ps: seq<nat>, lo: nat, hi: nat)
    requires |states| == |ps| + 1 && Ok(states[0], lo, hi)
    requires forall i :: 0 <= i < |ps| ==> Free(states[i], states[i + 1], lo, hi, ps[i])
    requires forall b :: b in Live(states[0]) ==> b.addr + HEADER in ps
    ensures states[|ps|] == Initial(lo, hi)
    decreases |ps|
  {
    if ps == [] {
      assert Live(states[0]) == {};
      InitialOk(lo, hi);
      OkCanonical(states[0], Initial(lo, hi), lo, hi);
    } else {
      assert Free(states[0], states[0 + 1], lo, hi, ps[0]);
      forall b | b in Live(states[1])
        ensures b.addr + HEADER in ps[1..]
      {
        if ps[0] != 0 {
          var c :| c in Live(states[0]) && c.addr + HEADER == ps[0] && Live(states[1]) == Live(states[0]) - {c};
          LiveUnique(states[0], lo, hi, b, c);
        }
      }
      forall i | 0 <= i < |ps[1..]|
        ensures Free(states[1..][i], states[1..][i + 1], lo, hi, ps[1..][i])
      {
        assert Free(states[i + 1], states[i + 1 + 1], lo, hi, ps[i + 1]);
      }
      FreeAllRestoresInitial(states[1..], ps[1..], lo, hi);
    }
  }
}
