/** Bytes of memory and the little-endian 64-bit words stored in them. */
module Bytes {

  type Byte = b: int | 0 <= b < 256

  /** One more than the largest value of a 64-bit word. */
  const WORD := 0x1_0000_0000_0000_0000

  function Pow256(k: nat): (p: nat)
    ensures p > 0
  {
    if k == 0 then 1 else 256 * Pow256(k - 1)
  }

  /** The low `k` bytes of `v`, least significant first. */
  function Encode(v: nat, k: nat): (s: seq<Byte>)
    ensures |s| == k
  {
    if k == 0 then [] else [v % 256] + Encode(v / 256, k - 1)
  }

  function Decode(s: seq<Byte>): (v: nat)
    ensures v < Pow256(|s|)
  {
    if s == [] then 0 else s[0] + 256 * Decode(s[1..])
  }

  lemma {:induction false} DecodeEncode(v: nat, k: nat)
    requires v < Pow256(k)
    ensures Decode(Encode(v, k)) == v
  {
    if k == 0 {
    } else {
      DecodeEncode(v / 256, k - 1);
      assert Encode(v, k)[1..] == Encode(v / 256, k - 1);
    }
  }

  lemma {:induction false} EncodeDecode(s: seq<Byte>)
    ensures Encode(Decode(s), |s|) == s
  {
    if s == [] {
    } else {
      EncodeDecode(s[1..]);
      assert s == [s[0]] + s[1..];
    }
  }

  lemma WordBound()
    ensures Pow256(8) == WORD
  {
  }

  /** The 64-bit word stored at offset `o`. */
  function WordAt(m: seq<Byte>, o: nat): nat
    requires o + 8 <= |m|
  {
    Decode(m[o..o + 8])
  }

  /** Two memories that agree on the bytes of a word hold the same word there. */
  lemma SameWord(m: seq<Byte>, m': seq<Byte>, o: nat)
    requires |m| == |m'| && o + 8 <= |m|
    requires forall k :: o <= k < o + 8 ==> m[k] == m'[k]
    ensures WordAt(m, o) == WordAt(m', o)
  {
    assert m[o..o + 8] == m'[o..o + 8];
  }

  /** Stores a 64-bit word at offset `o`, least significant byte first. */
  method StoreWord(mem: array<Byte>, o: nat, v: nat)
    requires o + 8 <= mem.Length
    requires v < WORD
    modifies mem
    ensures WordAt(mem[..], o) == v
    ensures forall k :: 0 <= k < mem.Length && !(o <= k < o + 8) ==> mem[k] == old(mem[k])
  {
    var bytes := Encode(v, 8);
    forall k | 0 <= k < 8 {
      mem[o + k] := bytes[k];
    }
    assert mem[..][o..o + 8] == bytes;
    WordBound();
    DecodeEncode(v, 8);
  }
}
