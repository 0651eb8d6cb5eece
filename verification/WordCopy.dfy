/**
 `memcpy` and `memmove` over one byte-addressed memory in which the address is the index and
 address 0 is the null pointer. A 64-bit assignment reads eight bytes, then writes eight bytes.
 */
module WordCopy {
  import opened Bytes

  function At(m: seq<Byte>, i: int): Byte
    requires 0 <= i < |m|
  {
    m[i]
  }

  /** `m'` is `m` with `n` bytes from `s` copied to `d` through a temporary, everything else as before. */
  ghost predicate Copied(m: seq<Byte>, m': seq<Byte>, d: nat, s: nat, n: nat) {
    && |m'| == |m| && s + n <= |m| && d + n <= |m|
    && forall i {:trigger At(m', i)} :: 0 <= i < |m'| ==> At(m', i) == if d <= i < d + n then m[s + i - d] else m[i]
  }

  /** Said with slices: exactly the destination is replaced, by what the source held before. */
  lemma CopiedIsSplice(m: seq<Byte>, m': seq<Byte>, d: nat, s: nat, n: nat)
    requires s + n <= |m| && d + n <= |m|
    ensures Copied(m, m', d, s, n) <==> m' == m[..d] + m[s..s + n] + m[d + n..]
  {
    var r := m[..d] + m[s..s + n] + m[d + n..];
    if Copied(m, m', d, s, n) {
      forall i | 0 <= i < |m'|
        ensures m'[i] == r[i]
      {
        assert m'[i] == At(m', i);
      }
    }
  }

  /** Forward: a copied prefix extended by `j` bytes, the source of which was not yet overwritten. */
  lemma ExtendForward(m: seq<Byte>, m1: seq<Byte>, m2: seq<Byte>, d: nat, s: nat, k: nat, j: nat)
    requires Copied(m, m1, d, s, k) && Copied(m1, m2, d + k, s + k, j)
    requires d <= s || s + k + j <= d
    ensures Copied(m, m2, d, s, k + j)
  {
    forall i | 0 <= i < |m2|
      ensures At(m2, i) == if d <= i < d + (k + j) then m[s + i - d] else m[i]
    {
      var t := if d + k <= i < d + k + j then s + i - d else i;
      assert At(m2, i) == At(m1, t);
    }
  }

  /** Backward: a copied suffix extended by the `j` bytes before it. */
  lemma ExtendBackward(m: seq<Byte>, m1: seq<Byte>, m2: seq<Byte>, d: nat, s: nat, k: nat, j: nat)
    requires s < d
    requires Copied(m, m1, d + j, s + j, k) && Copied(m1, m2, d, s, j)
    ensures Copied(m, m2, d, s, j + k)
  {
    forall i | 0 <= i < |m2|
      ensures At(m2, i) == if d <= i < d + (j + k) then m[s + i - d] else m[i]
    {
      var t := if d <= i < d + j then s + i - d else i;
      assert At(m2, i) == At(m1, t);
    }
  }

  /** `*d64 = *s64` */
  method CopyWord(mem: array<Byte>, d: nat, s: nat)
    requires s + 8 <= mem.Length && d + 8 <= mem.Length
    modifies mem
    ensures Copied(old(mem[..]), mem[..], d, s, 8)
  {
    var word := mem[s..s + 8];
    forall k | 0 <= k < 8 {
      mem[d + k] := word[k];
    }
  }

  /** `*d8 = *s8` */
  method CopyByte(mem: array<Byte>, d: nat, s: nat)
    requires s < mem.Length && d < mem.Length
    modifies mem
    ensures Copied(old(mem[..]), mem[..], d, s, 1)
  {
    mem[d] := mem[s];
  }

  /** `*d64++ = *s64++`, when `k` bytes have already been copied. */
  method WordUp(mem: array<Byte>, dest: nat, src: nat, k: nat, ghost m: seq<Byte>)
    requires src + k + 8 <= mem.Length && dest + k + 8 <= mem.Length
    requires dest <= src || src + k + 8 <= dest
    requires Copied(m, mem[..], dest, src, k)
    modifies mem
    ensures Copied(m, mem[..], dest, src, k + 8)
  {
    ghost var m1 := mem[..];
    CopyWord(mem, dest + k, src + k);
    ExtendForward(m, m1, mem[..], dest, src, k, 8);
  }

  /** `*d8++ = *s8++`, when `k` bytes have already been copied. */
  method ByteUp(mem: array<Byte>, dest: nat, src: nat, k: nat, ghost m: seq<Byte>)
    requires src + k + 1 <= mem.Length && dest + k + 1 <= mem.Length
    requires dest <= src || src + k + 1 <= dest
    requires Copied(m, mem[..], dest, src, k)
    modifies mem
    ensures Copied(m, mem[..], dest, src, k + 1)
  {
    ghost var m1 := mem[..];
    CopyByte(mem, dest + k, src + k);
    ExtendForward(m, m1, mem[..], dest, src, k, 1);
  }

  /** `*d64-- = *s64--`, when the bytes from offset `k` up to `n` have already been copied. */
  method WordDown(mem: array<Byte>, dest: nat, src: nat, n: nat, k: nat, ghost m: seq<Byte>)
    requires src + n <= mem.Length && dest + n <= mem.Length
    requires src < dest && 8 <= k <= n
    requires Copied(m, mem[..], dest + k, src + k, n - k)
    modifies mem
    ensures Copied(m, mem[..], dest + (k - 8), src + (k - 8), n - (k - 8))
  {
    ghost var m1 := mem[..];
    CopyWord(mem, dest + k - 8, src + k - 8);
    ExtendBackward(m, m1, mem[..], dest + k - 8, src + k - 8, n - k, 8);
  }

  /** `*d8-- = *s8--`, when the bytes from offset `k` up to `n` have already been copied. */
  method ByteDown(mem: array<Byte>, dest: nat, src: nat, n: nat, k: nat, ghost m: seq<Byte>)
    requires src + n <= mem.Length && dest + n <= mem.Length
    requires src < dest && 1 <= k <= n
    requires Copied(m, mem[..], dest + k, src + k, n - k)
    modifies mem
    ensures Copied(m, mem[..], dest + (k - 1), src + (k - 1), n - (k - 1))
  {
    ghost var m1 := mem[..];
    CopyByte(mem, dest + k - 1, src + k - 1);
    ExtendBackward(m, m1, mem[..], dest + k - 1, src + k - 1, n - k, 1);
  }

  /** `memcpy`, for ranges that do not overlap and for a destination below an overlapping source. */
  method Memcpy(mem: array<Byte>, dest: nat, src: nat, n: nat)
    requires dest != 0 && src != 0 ==> src + n <= mem.Length && dest + n <= mem.Length
    requires dest <= src || src + n <= dest
    modifies mem
    ensures if dest == 0 || src == 0 then mem[..] == old(mem[..]) else Copied(old(mem[..]), mem[..], dest, src, n)
  {
    if dest == 0 || src == 0 {
      return;
    }
    ghost var m := mem[..];
    var count, k := n, 0;  // `k` is how far d64 and s64 have moved
    while count >= 32
      invariant 0 <= count && count + k == n
      invariant Copied(m, mem[..], dest, src, k)
    {
      WordUp(mem, dest, src, k, m);
      WordUp(mem, dest, src, k + 8, m);
      WordUp(mem, dest, src, k + 16, m);
      WordUp(mem, dest, src, k + 24, m);
      count, k := count - 32, k + 32;
    }
    var chunks, i := count / 8, 0;
    while i < chunks
      invariant 0 <= i <= chunks && k + 8 * (chunks - i) + count % 8 == n
      invariant Copied(m, mem[..], dest, src, k)
    {
      WordUp(mem, dest, src, k, m);
      i, k := i + 1, k + 8;
    }
    var remainder := count % 8;
    i := 0;
    while i < remainder
      invariant 0 <= i <= remainder && k + (remainder - i) == n
      invariant Copied(m, mem[..], dest, src, k)
    {
      ByteUp(mem, dest, src, k, m);
      i, k := i + 1, k + 1;
    }
  }

  /** `memmove`: a copy through a temporary, for every length and every overlap. */
  method Memmove(mem: array<Byte>, dest: nat, src: nat, n: nat)
    requires dest != 0 && src != 0 ==> src + n <= mem.Length && dest + n <= mem.Length
    modifies mem
    ensures if dest == 0 || src == 0 then mem[..] == old(mem[..]) else Copied(old(mem[..]), mem[..], dest, src, n)
  {
    if dest == 0 || src == 0 || dest == src || n == 0 {
      return;
    }
    if dest < src || dest >= src + n {
      Memcpy(mem, dest, src, n);
      return;
    }
    ghost var m := mem[..];
    var count := n;
    while count >= 32
      invariant 0 <= count <= n
      invariant Copied(m, mem[..], dest + count, src + count, n - count)
    {
      WordDown(mem, dest, src, n, count, m);
      WordDown(mem, dest, src, n, count - 8, m);
      WordDown(mem, dest, src, n, count - 16, m);
      WordDown(mem, dest, src, n, count - 24, m);
      count := count - 32;
    }
    while count >= 8
      invariant 0 <= count <= n
      invariant Copied(m, mem[..], dest + count, src + count, n - count)
    {
      WordDown(mem, dest, src, n, count, m);
      count := count - 8;
    }
    while count > 0
      invariant 0 <= count <= n
      invariant Copied(m, mem[..], dest + count, src + count, n - count)
    {
      ByteDown(mem, dest, src, n, count, m);
      count := count - 1;
    }
  }
}
