/** A file of the RAM file system: a growable vector written and read at offsets. */
module RamFile {
  import opened Bytes
  import opened Vector

  /** Offsets and sizes are unsigned 32-bit numbers, and so must their sum be. */
  const LIMIT := 0x1_0000_0000

  // ---------- What a run of writes means ----------

  datatype Write = Write(offset: nat, bytes: seq<Byte>)

  function Reach(w: Write): nat {
    w.offset + |w.bytes|
  }

  /** One write: the file grows to its reach, zeros fill the gap, and the bytes are replaced. */
  function Written(f: seq<Byte>, w: Write): (f': seq<Byte>)
    ensures |f'| == if Reach(w) > |f| then Reach(w) else |f|
  {
    var g := if Reach(w) > |f| then f + Zeros(Reach(w) - |f|) else f;
    g[..w.offset] + w.bytes + g[Reach(w)..]
  }

  function Zeros(n: nat): (z: seq<Byte>)
    ensures |z| == n && forall k :: 0 <= k < n ==> z[k] == 0
  {
    seq(n, _ => 0)
  }

  function File(ws: seq<Write>): seq<Byte> {
    if ws == [] then [] else Written(File(ws[..|ws| - 1]), ws[|ws| - 1])
  }

  /** The farthest any write reached */
  function Length(ws: seq<Write>): nat {
    if ws == [] then 0 else
      var n, r := Length(ws[..|ws| - 1]), Reach(ws[|ws| - 1]);
      if r > n then r else n
  }

  predicate Covers(w: Write, i: nat) {
    w.offset <= i < Reach(w)
  }

  /** The last write that covers position `i`, or -1 */
  function LastWriter(ws: seq<Write>, i: nat): (k: int)
    ensures -1 <= k < |ws|
    ensures k >= 0 ==> Covers(ws[k], i)
    ensures forall j :: k < j < |ws| ==> !Covers(ws[j], i)
  {
    if ws == [] then -1
    else if Covers(ws[|ws| - 1], i) then |ws| - 1
    else LastWriter(ws[..|ws| - 1], i)
  }

  lemma WrittenAt(f: seq<Byte>, w: Write, i: nat)
    requires i < |Written(f, w)|
    ensures Written(f, w)[i] == if Covers(w, i) then w.bytes[i - w.offset] else if i < |f| then f[i] else 0
  {
  }

  /** The length is the farthest reach; each byte is that of its last writer, and zero where nobody wrote. */
  lemma {:induction false} LastWriterWins(ws: seq<Write>, i: nat)
    ensures |File(ws)| == Length(ws)
    ensures var k := LastWriter(ws, i);
      if i < Length(ws) then File(ws)[i] == (if k == -1 then 0 else ws[k].bytes[i - ws[k].offset]) else k == -1
    decreases |ws|
  {
    if ws != [] {
      var n := |ws| - 1;
      LastWriterWins(ws[..n], i);
      if i < Length(ws) {
        WrittenAt(File(ws[..n]), ws[n], i);
      }
    }
  }

  // ---------- The file ----------

  lemma SliceOfPrefix(s: seq<Byte>, n: nat, from: nat, to: nat)
    requires from <= to <= n <= |s|
    ensures s[..n][from..to] == s[from..to]
  {
  }

  class RamFSFile {
    const fileData: Vector<Byte>
    var length: nat

    /** `length` is the size of the vector. */
    ghost predicate Valid()
      reads this, fileData
    {
      fileData.Valid() && fileData.zero == 0 && length == fileData.size
    }

    ghost function Content(): seq<Byte>
      requires Valid()
      reads this, fileData, fileData.data
    {
      fileData.Contents()
    }

    constructor ()
      ensures Valid() && fresh(fileData) && fresh(fileData.data) && Content() == File([])
    {
      fileData := new Vector<Byte>(0);
      length := 0;
    }

    /** `memcpy` into the data of the vector */
    method CopyIn(offset: nat, buffer: seq<Byte>)
      requires fileData.Valid() && offset + |buffer| <= fileData.size
      modifies fileData.data
      ensures fileData.Valid()
      ensures fileData.Contents() ==
        old(fileData.Contents())[..offset] + buffer + old(fileData.Contents())[offset + |buffer|..]
    {
      forall k | 0 <= k < |buffer| {
        fileData.data[offset + k] := buffer[k];
      }
    }

    /** `write`, without 32-bit overflow */
    method WriteAt(offset: nat, buffer: seq<Byte>) returns (n: nat)
      requires Valid() && offset + |buffer| < LIMIT
      modifies this, fileData, fileData.data
      ensures Valid() && (fileData.data == old(fileData.data) || fresh(fileData.data))
      ensures n == |buffer| && Content() == Written(old(Content()), Write(offset, buffer))
    {
      var size := |buffer|;
      if offset + size > length {
        fileData.Resize(offset + size);
      }
      CopyIn(offset, buffer);
      if offset + size > length {
        length := offset + size;
      }
      return size;
    }

    /** `read`: clipped at the end of the file */
    method ReadAt(offset: nat, size: nat) returns (bytes: seq<Byte>)
      requires Valid() && offset + size < LIMIT
      ensures bytes == var c := Content();
        if offset >= |c| then [] else c[offset..if offset + size > |c| then |c| else offset + size]
    {
      if offset >= length {
        return [];
      }
      var readSize := size;
      if offset + size > length {
        readSize := length - offset;
      }
      bytes := fileData.data[offset..offset + readSize];
      SliceOfPrefix(fileData.data[..], fileData.size, offset, offset + readSize);
      assert fileData.data[..fileData.size] == fileData.data[..][..fileData.size];
    }
  }
}
