/** What a client's data goes through over a whole run of heap calls and of writes to other blocks. */
module HeapData {
  import opened Bytes
  import opened HeapSpec
  import opened HeapLaws
  import opened KernelHeap

  /** Memory and block list at one moment */
  datatype Image = Image(memory: seq<Byte>, blocks: seq<Block>)

  /** A call of the allocator, or a client's write of one byte into a live block */
  datatype Event = Calls(c: Call) | Writes(owner: Block, k: nat, v: Byte)

  /** What `Malloc`, `Free` and `Poke` promise about their effect on memory and blocks */
  ghost predicate Happens(s: Image, e: Event, s': Image, base: nat) {
    && |s'.memory| == |s.memory|
    && match e
       case Calls(c) =>
         && Step(s.blocks, s'.blocks, base, base + |s.memory|, c)
         && SamePayloads(s.memory, s'.memory, base, Live(s.blocks) * Live(s'.blocks))
       case Writes(owner, k, v) =>
         && owner in Live(s.blocks) && k < |s.memory| && owner.addr + HEADER <= base + k < End(owner)
         && s' == s.(memory := s.memory[k := v])
  }

  ghost predicate HappensAt(images: seq<Image>, events: seq<Event>, base: nat, i: nat)
    requires |images| == |events| + 1 && i < |events|
  {
    Happens(images[i], events[i], images[i + 1], base)
  }

  /** A run of events from a sound heap in which block `b` stays live and nobody writes to it. */
  ghost predicate RunBeside(images: seq<Image>, events: seq<Event>, base: nat, b: Block) {
    && |images| == |events| + 1
    && Ok(images[0].blocks, base, base + |images[0].memory|)
    && (forall i {:trigger HappensAt(images, events, base, i)} ::
          0 <= i < |events| ==> HappensAt(images, events, base, i))
    && (forall i :: 0 <= i < |images| ==> b in Live(images[i].blocks))
    && (forall i :: 0 <= i < |events| ==> events[i].Writes? ==> events[i].owner != b)
  }

  /** Then its bytes are at the end what they were at the start. */
  lemma {:induction false} DataSurvives(images: seq<Image>, events: seq<Event>, base: nat, b: Block, n: nat)
    requires RunBeside(images, events, base, b) && n <= |events|
    ensures Ok(images[n].blocks, base, base + |images[n].memory|)
    ensures SamePayload(images[0].memory, images[n].memory, base, b)
  {
    if n > 0 {
      DataSurvives(images, events, base, b, n - 1);
      assert HappensAt(images, events, base, n - 1);
      var s := images[n - 1];
      if events[n - 1].Writes? {
        LiveUnique(s.blocks, base, base + |s.memory|, b, events[n - 1].owner);
      }
      assert SamePayload(s.memory, images[n].memory, base, b);
    }
  }
}
