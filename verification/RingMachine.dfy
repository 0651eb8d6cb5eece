/** One producer and one consumer on a ring, one read or write of shared memory at a time. */
module RingMachine {
  import opened RingBuffer

  /** Where `push` stands, with the locals it holds; the comment names the next access. */
  datatype Producer<T> =
    | Idle
    | Begun(v: T)                          // read head
    | Measured(v: T, next: nat)            // read tail, compare
    | Admitted(v: T, next: nat)            // read head
    | Located(v: T, next: nat, slot: nat)  // write the slot
    | Stored(v: T, next: nat)              // write head

  /** Where `pop` stands. */
  datatype Consumer<T> =
    | Waiting
    | Asked                                // read head or tail
    | Sampled(head: nat, empty: bool)      // read tail, compare
    | Anchored(tail: nat)                  // read head, compare
    | Sure                                 // read tail
    | Aimed(slot: nat)                     // read the slot
    | Loaded(v: T)                         // read tail
    | Leaving(v: T, tail: nat)             // write tail

  datatype State<T> = State(buffer: seq<T>, head: nat, tail: nat, producer: Producer<T>, consumer: Consumer<T>)

  /** What a step shows to the outside. A step without a visible effect is `Silent`. */
  datatype Label<T> = Silent | Pushed(v: T) | Refused(v: T) | Popped(v: T) | FoundEmpty

  /** A shared memory that a ring can be in. */
  ghost predicate InBounds<T>(s: State<T>) {
    |s.buffer| == SIZE && s.head < SIZE && s.tail < SIZE
  }

  /** One access by the producer; `v` is the argument when a new `push` begins. */
  ghost predicate ProducerStep<T>(s: State<T>, l: Label<T>, s': State<T>, v: T)
    requires InBounds(s)
  {
    match s.producer
    case Idle => l == Silent && s' == s.(producer := Begun(v))
    case Begun(v) => l == Silent && s' == s.(producer := Measured(v, (s.head + 1) % SIZE))
    case Measured(v, next) =>
      if next == s.tail then l == Refused(v) && s' == s.(producer := Idle)
      else l == Silent && s' == s.(producer := Admitted(v, next))
    case Admitted(v, next) => l == Silent && s' == s.(producer := Located(v, next, s.head))
    case Located(v, next, slot) =>
      slot < SIZE && l == Silent && s' == s.(buffer := s.buffer[slot := v], producer := Stored(v, next))
    case Stored(v, next) => l == Pushed(v) && s' == s.(head := next, producer := Idle)
  }

  /**
   One access by the consumer. The language leaves open which side of `head == tail` is read first.
   A `pop` that will find nothing shows it when it reads `head`.
   */
  ghost predicate ConsumerStep<T>(s: State<T>, l: Label<T>, s': State<T>)
    requires InBounds(s)
  {
    match s.consumer
    case Waiting => l == Silent && s' == s.(consumer := Asked)
    case Asked =>
      || (l == (if s.head == s.tail then FoundEmpty else Silent)
          && s' == s.(consumer := Sampled(s.head, s.head == s.tail)))
      || (l == Silent && s' == s.(consumer := Anchored(s.tail)))
    case Sampled(head, _) =>
      l == Silent && s' == s.(consumer := if head == s.tail then Waiting else Sure)
    case Anchored(tail) =>
      && l == (if s.head == tail then FoundEmpty else Silent)
      && s' == s.(consumer := if s.head == tail then Waiting else Sure)
    case Sure => l == Silent && s' == s.(consumer := Aimed(s.tail))
    case Aimed(slot) => slot < SIZE && l == Silent && s' == s.(consumer := Loaded(s.buffer[slot]))
    case Loaded(v) => l == Silent && s' == s.(consumer := Leaving(v, s.tail))
    case Leaving(v, tail) => l == Popped(v) && s' == s.(tail := (tail + 1) % SIZE, consumer := Waiting)
  }

  ghost predicate Step<T(!new)>(s: State<T>, l: Label<T>, s': State<T>)
    requires InBounds(s)
  {
    ConsumerStep(s, l, s') || exists v: T :: ProducerStep(s, l, s', v)
  }

  ghost predicate Init<T>(s: State<T>) {
    |s.buffer| == SIZE && s.head == 0 && s.tail == 0 && s.producer.Idle? && s.consumer.Waiting?
  }

  /** `states` is a run with any interleaving of the two sides, `labels` what it shows. */
  ghost predicate Run<T(!new)>(states: seq<State<T>>, labels: seq<Label<T>>) {
    && |states| == |labels| + 1
    && Init(states[0])
    && forall i {:trigger StepAt(states, labels, i)} :: 0 <= i < |labels| ==> StepAt(states, labels, i)
  }

  ghost predicate StepAt<T(!new)>(states: seq<State<T>>, labels: seq<Label<T>>, i: nat)
    requires |states| == |labels| + 1 && i < |labels|
  {
    InBounds(states[i]) && Step(states[i], labels[i], states[i + 1])
  }

  // ---------- The atomic queue ----------

  /** One operation on an atomic queue that holds at most 255 items. */
  ghost predicate QueueStep<T>(q: seq<T>, l: Label<T>, q': seq<T>) {
    match l
    case Silent => q' == q
    case Pushed(v) => |q| < SIZE - 1 && q' == q + [v]
    case Refused(v) => |q| == SIZE - 1 && q' == q
    case Popped(v) => q == [v] + q'
    case FoundEmpty => q == [] && q' == q
  }

  // ---------- The invariant ----------

  ghost predicate ProducerOk<T>(s: State<T>)
    requires InBounds(s)
  {
    var room := (s.head + 1) % SIZE != s.tail;
    match s.producer
    case Idle => true
    case Begun(v) => true
    case Measured(v, next) => next == (s.head + 1) % SIZE
    case Admitted(v, next) => next == (s.head + 1) % SIZE && room
    case Located(v, next, slot) => next == (s.head + 1) % SIZE && room && slot == s.head
    case Stored(v, next) => next == (s.head + 1) % SIZE && room && s.buffer[s.head] == v
  }

  ghost predicate ConsumerOk<T>(s: State<T>)
    requires InBounds(s)
  {
    match s.consumer
    case Waiting => true
    case Asked => true
    case Sampled(head, empty) =>
      && head < SIZE && (head == s.tail <==> empty)
      && Occupied(head, s.tail) <= Occupied(s.head, s.tail)
    case Anchored(tail) => tail == s.tail
    case Sure => s.head != s.tail
    case Aimed(slot) => s.head != s.tail && slot == s.tail
    case Loaded(v) => s.head != s.tail && v == s.buffer[s.tail]
    case Leaving(v, tail) => s.head != s.tail && v == s.buffer[s.tail] && tail == s.tail
  }

  ghost predicate Inv<T>(s: State<T>) {
    InBounds(s) && ProducerOk(s) && ConsumerOk(s)
  }

  ghost function Items<T>(s: State<T>): seq<T>
    requires InBounds(s)
  {
    Pending(s.buffer, s.head, s.tail)
  }

  lemma ProducerSimulates<T>(s: State<T>, l: Label<T>, s': State<T>, v: T)
    requires Inv(s) && ProducerStep(s, l, s', v)
    ensures Inv(s') && QueueStep(Items(s), l, Items(s'))
  {
    match s.producer
    case Located(v, next, slot) => PendingStore(s.buffer, s.head, s.tail, v);
    case Stored(v, next) => PendingPush(s.buffer, s.head, s.tail);
    case _ =>
  }

  lemma ConsumerSimulates<T>(s: State<T>, l: Label<T>, s': State<T>)
    requires Inv(s) && ConsumerStep(s, l, s')
    ensures Inv(s') && QueueStep(Items(s), l, Items(s'))
  {
    if s.consumer.Leaving? {
      PendingPop(s.buffer, s.head, s.tail);
    }
  }

  // ---------- Undisturbed calls ----------

  ghost predicate ProducerStepAt<T(!new)>(states: seq<State<T>>, labels: seq<Label<T>>, v: T, i: nat)
    requires |states| == |labels| + 1 && i < |labels|
  {
    InBounds(states[i]) && ProducerStep(states[i], labels[i], states[i + 1], v)
  }

  ghost predicate ConsumerStepAt<T(!new)>(states: seq<State<T>>, labels: seq<Label<T>>, i: nat)
    requires |states| == |labels| + 1 && i < |labels|
  {
    InBounds(states[i]) && ConsumerStep(states[i], labels[i], states[i + 1])
  }

  /** From `push` to its return with the consumer at rest: what `RingBuffer.Push` does, in 6 accesses, or 3 if full. */
  lemma PushAlone<T(!new)>(states: seq<State<T>>, labels: seq<Label<T>>, v: T)
    requires |states| == |labels| + 1 && Inv(states[0]) && states[0].producer == Idle
    requires |labels| == if |Items(states[0])| < SIZE - 1 then 6 else 3
    requires forall i {:trigger ProducerStepAt(states, labels, v, i)} ::
      0 <= i < |labels| ==> ProducerStepAt(states, labels, v, i)
    ensures var s, n := states[0], |labels|;
      if |Items(s)| < SIZE - 1
      then labels[n - 1] == Pushed(v) && states[n] == s.(buffer := s.buffer[s.head := v], head := (s.head + 1) % SIZE)
      else labels[n - 1] == Refused(v) && states[n] == s
    ensures QueueStep(Items(states[0]), labels[|labels| - 1], Items(states[|labels|]))
  {
    var s := states[0];
    assert ProducerStepAt(states, labels, v, 0) && ProducerStepAt(states, labels, v, 1)
        && ProducerStepAt(states, labels, v, 2);
    if |labels| == 6 {
      assert ProducerStepAt(states, labels, v, 3) && ProducerStepAt(states, labels, v, 4)
          && ProducerStepAt(states, labels, v, 5);
      PendingStore(s.buffer, s.head, s.tail, v);
      PendingPush(s.buffer[s.head := v], s.head, s.tail);
    }
  }

  /** The first three accesses of an undisturbed `pop`: it sees whether anything is pending. */
  lemma PopLooks<T(!new)>(states: seq<State<T>>, labels: seq<Label<T>>)
    requires |states| == |labels| + 1 && |labels| >= 3 && Inv(states[0]) && states[0].consumer == Waiting
    requires ConsumerStepAt(states, labels, 0) && ConsumerStepAt(states, labels, 1) && ConsumerStepAt(states, labels, 2)
    ensures var s := states[0];
      && states[3] == s.(consumer := if Items(s) == [] then Waiting else Sure)
      && (Items(s) == [] ==> labels[1] == FoundEmpty || labels[2] == FoundEmpty)
  {
  }

  /** From `pop` to its return with the producer at rest: what `RingBuffer.Pop` does, in 7 accesses, or 3 if empty. */
  lemma PopAlone<T(!new)>(states: seq<State<T>>, labels: seq<Label<T>>)
    requires |states| == |labels| + 1 && Inv(states[0]) && states[0].consumer == Waiting
    requires |labels| == if Items(states[0]) != [] then 7 else 3
    requires forall i {:trigger ConsumerStepAt(states, labels, i)} ::
      0 <= i < |labels| ==> ConsumerStepAt(states, labels, i)
    ensures var s, n := states[0], |labels|;
      if Items(s) != []
      then labels[n - 1] == Popped(s.buffer[s.tail]) && states[n] == s.(tail := (s.tail + 1) % SIZE)
      else (labels[1] == FoundEmpty || labels[2] == FoundEmpty) && states[n] == s
    ensures Items(states[|labels|]) == if Items(states[0]) != [] then Items(states[0])[1..] else []
  {
    var s := states[0];
    assert ConsumerStepAt(states, labels, 0) && ConsumerStepAt(states, labels, 1) && ConsumerStepAt(states, labels, 2);
    PopLooks(states, labels);
    if |labels| == 7 {
      assert ConsumerStepAt(states, labels, 3) && ConsumerStepAt(states, labels, 4)
          && ConsumerStepAt(states, labels, 5) && ConsumerStepAt(states, labels, 6);
      PendingPop(s.buffer, s.head, s.tail);
    }
  }

  // ---------- Runs ----------

  lemma StepSimulates<T(!new)>(s: State<T>, l: Label<T>, s': State<T>)
    requires Inv(s) && Step(s, l, s')
    ensures Inv(s') && QueueStep(Items(s), l, Items(s'))
  {
    if ConsumerStep(s, l, s') {
      ConsumerSimulates(s, l, s');
    } else {
      var v :| ProducerStep(s, l, s', v);
      ProducerSimulates(s, l, s', v);
    }
  }

  lemma {:induction false} Reachable<T(!new)>(states: seq<State<T>>, labels: seq<Label<T>>, k: nat)
    requires Run(states, labels) && k < |states|
    ensures Inv(states[k])
  {
    if k > 0 {
      Reachable(states, labels, k - 1);
      assert StepAt(states, labels, k - 1);
      StepSimulates(states[k - 1], labels[k - 1], states[k]);
    }
  }

  /**
   Whatever the interleaving, the labels of a run are a run of the atomic queue that starts empty
   and whose items are always those in the ring.
   */
  lemma Linearizable<T(!new)>(states: seq<State<T>>, labels: seq<Label<T>>, k: nat)
    requires Run(states, labels) && k < |states|
    ensures InBounds(states[0]) && Items(states[0]) == []
    ensures InBounds(states[k])
    ensures k < |labels| ==> InBounds(states[k + 1]) && QueueStep(Items(states[k]), labels[k], Items(states[k + 1]))
  {
    Reachable(states, labels, k);
    if k < |labels| {
      assert StepAt(states, labels, k);
      StepSimulates(states[k], labels[k], states[k + 1]);
    }
  }

  /** The values of the pushes that returned true, in order. */
  function Accepted<T>(labels: seq<Label<T>>): seq<T> {
    if labels == [] then [] else Accepted(labels[..|labels| - 1]) + AcceptedBy(labels[|labels| - 1])
  }

  function AcceptedBy<T>(l: Label<T>): seq<T> {
    match l case Pushed(v) => [v] case _ => []
  }

  /** The values that pops returned, in order. */
  function Removed<T>(labels: seq<Label<T>>): seq<T> {
    if labels == [] then [] else Removed(labels[..|labels| - 1]) + RemovedBy(labels[|labels| - 1])
  }

  function RemovedBy<T>(l: Label<T>): seq<T> {
    match l case Popped(v) => [v] case _ => []
  }

  lemma QueueConserves<T>(accepted: seq<T>, removed: seq<T>, q: seq<T>, l: Label<T>, q': seq<T>)
    requires accepted == removed + q && QueueStep(q, l, q')
    ensures accepted + AcceptedBy(l) == removed + RemovedBy(l) + q'
  {
  }

  /** At every moment of every run, what was accepted is what was popped followed by what is in the ring. */
  lemma {:induction false} Fifo<T(!new)>(states: seq<State<T>>, labels: seq<Label<T>>, k: nat)
    requires Run(states, labels) && k < |states|
    ensures InBounds(states[k])
    ensures Accepted(labels[..k]) == Removed(labels[..k]) + Items(states[k])
  {
    if k == 0 {
      Linearizable(states, labels, 0);
    } else {
      Fifo(states, labels, k - 1);
      Linearizable(states, labels, k - 1);
      assert labels[..k][..k - 1] == labels[..k - 1];
      QueueConserves(Accepted(labels[..k - 1]), Removed(labels[..k - 1]),
                     Items(states[k - 1]), labels[k - 1], Items(states[k]));
    }
  }

  /** The producer never writes a slot that holds an item not yet read. */
  lemma NeverOverwrites<T(!new)>(states: seq<State<T>>, labels: seq<Label<T>>, k: nat)
    requires Run(states, labels) && k < |states| && states[k].producer.Located?
    ensures InBounds(states[k])
    ensures forall i :: 0 <= i < |Items(states[k])| ==> Slot(states[k].tail, i) != states[k].producer.slot
  {
    Reachable(states, labels, k);
  }

  /** `pop` returns false exactly when the queue was empty at the moment it read `head`. */
  lemma EmptyReturnWasEmpty<T(!new)>(states: seq<State<T>>, labels: seq<Label<T>>, k: nat)
    requires Run(states, labels) && k < |labels|
    requires states[k].consumer.Sampled? || states[k].consumer.Anchored?
    requires states[k + 1].consumer != states[k].consumer
    ensures InBounds(states[k])
    ensures states[k + 1].consumer.Waiting? <==>
      if states[k].consumer.Sampled? then states[k].consumer.empty else Items(states[k]) == []
  {
    Reachable(states, labels, k);
    assert StepAt(states, labels, k);
  }
}
