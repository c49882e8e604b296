/**
 * The key ring shared by the interrupt handler (`push_key`) and the reader (`keyboard_get_char`), at the
 * grain of single reads and writes of `key_head`, `key_tail` and `key_buffer`, freely interleaved.
 */
module KeyRing {
  import opened CStrings

  const KEY_BUFFER_SIZE := 256

  /** Where a call of `push_key(c)` stands. */
  datatype Producer =
    | Waiting
    | HaveNext(c: char, next: nat)               // key_head read, next computed
    | Accepted(c: char, next: nat)               // key_tail read, and it was not next
    | HaveSlot(c: char, next: nat, slot: nat)    // key_head read again for the store
    | Stored(c: char, next: nat)                 // key_buffer written

  /** Where a call of `keyboard_get_char` stands; `seen` is how many keys were ever accepted when it read key_head. */
  datatype Consumer =
    | Resting
    | HaveHead(head: nat, seen: nat)             // key_head read
    | NotEmpty                                   // key_tail read, and it differed
    | HaveIndex(index: nat)                      // key_tail read again for the load
    | HaveChar(c: char)                          // key_buffer read
    | HaveTail(c: char, tail: nat)               // key_tail read again, the next one computed

  /** A key whose call has read key_tail, and how many keys were pending at that moment. */
  datatype Test = Test(key: char, pending: int)

  /**
   * The shared variables, the two program counters, and the history: keys pushed (when a call starts), those
   * tested for room, keys accepted (when key_head moves past them), keys delivered (when key_tail does), and
   * every result returned, zeros included.
   */
  datatype Ring = Ring(buffer: seq<char>, head: nat, tail: nat, producer: Producer, consumer: Consumer,
                       pushed: seq<char>, tests: seq<Test>, accepted: seq<char>, delivered: seq<char>,
                       results: seq<char>)
  {
    function Pending(): int
    {
      |accepted| - |delivered|
    }
  }

  /** One scheduling decision: who moves, and the key for a call that starts. */
  datatype Action = Produce(c: char) | Consume

  function Empty(): Ring
  {
    Ring(seq(KEY_BUFFER_SIZE, _ => NUL), 0, 0, Waiting, Resting, [], [], [], [], [])
  }

  function ProducerStep(r: Ring, c: char): Ring
  {
    match r.producer
    case Waiting => r.(producer := HaveNext(c, (r.head + 1) % KEY_BUFFER_SIZE), pushed := r.pushed + [c])
    case HaveNext(k, next) =>
      r.(producer := if next != r.tail then Accepted(k, next) else Waiting, tests := r.tests + [Test(k, r.Pending())])
    case Accepted(k, next) => r.(producer := HaveSlot(k, next, r.head))
    case HaveSlot(k, next, slot) =>
      if slot < |r.buffer| then r.(producer := Stored(k, next), buffer := r.buffer[slot := k]) else r
    case Stored(k, next) => r.(producer := Waiting, head := next, accepted := r.accepted + [k])
  }

  function ConsumerStep(r: Ring): Ring
  {
    match r.consumer
    case Resting => r.(consumer := HaveHead(r.head, |r.accepted|))
    case HaveHead(h, _) =>
      if h == r.tail then r.(consumer := Resting, results := r.results + [NUL]) else r.(consumer := NotEmpty)
    case NotEmpty => r.(consumer := HaveIndex(r.tail))
    case HaveIndex(i) => if i < |r.buffer| then r.(consumer := HaveChar(r.buffer[i])) else r
    case HaveChar(k) => r.(consumer := HaveTail(k, (r.tail + 1) % KEY_BUFFER_SIZE))
    case HaveTail(k, t) =>
      r.(consumer := Resting, tail := t, delivered := r.delivered + [k], results := r.results + [k])
  }

  function Step(r: Ring, a: Action): Ring
  {
    match a
    case Produce(c) => ProducerStep(r, c)
    case Consume => ConsumerStep(r)
  }

  /** The state after a schedule. */
  function Run(schedule: seq<Action>): Ring
  {
    if schedule == [] then Empty() else Step(Run(schedule[..|schedule| - 1]), schedule[|schedule| - 1])
  }

  /** The handler never pushes a zero. */
  predicate NonZeroKeys(schedule: seq<Action>)
  {
    forall a | a in schedule :: a.Produce? ==> a.c != NUL
  }

  function NonZero(s: seq<char>): seq<char>
  {
    if s == [] then []
    else if s[|s| - 1] == NUL then NonZero(s[..|s| - 1])
    else NonZero(s[..|s| - 1]) + [s[|s| - 1]]
  }

  function Slot(k: nat): nat
  {
    k % KEY_BUFFER_SIZE
  }

  // ---------- the invariant ----------

  ghost predicate SharedInv(r: Ring)
  {
    && |r.buffer| == KEY_BUFFER_SIZE
    && r.delivered <= r.accepted
    && |r.accepted| - |r.delivered| < KEY_BUFFER_SIZE
    && r.head == Slot(|r.accepted|) && r.tail == Slot(|r.delivered|)
    && (forall k | |r.delivered| <= k < |r.accepted| :: r.buffer[Slot(k)] == r.accepted[k])
    && NUL !in r.accepted
    && NonZero(r.results) == r.delivered
  }

  ghost predicate ProducerInv(r: Ring)
  {
    match r.producer
    case Waiting => true
    case HaveNext(c, next) => c != NUL && next == Slot(|r.accepted| + 1)
    case Accepted(c, next) => c != NUL && next == Slot(|r.accepted| + 1) && r.Pending() < KEY_BUFFER_SIZE - 1
    case HaveSlot(c, next, slot) =>
      c != NUL && next == Slot(|r.accepted| + 1) && r.Pending() < KEY_BUFFER_SIZE - 1 && slot == r.head
    case Stored(c, next) =>
      && c != NUL && next == Slot(|r.accepted| + 1) && r.Pending() < KEY_BUFFER_SIZE - 1
      && r.head < |r.buffer| && r.buffer[r.head] == c
  }

  ghost predicate ConsumerInv(r: Ring)
  {
    match r.consumer
    case Resting => true
    case HaveHead(h, seen) => h == Slot(seen) && |r.delivered| <= seen <= |r.accepted|
    case NotEmpty => r.Pending() > 0
    case HaveIndex(i) => r.Pending() > 0 && i == r.tail
    case HaveChar(c) => r.Pending() > 0 && c == r.accepted[|r.delivered|]
    case HaveTail(c, t) => r.Pending() > 0 && c == r.accepted[|r.delivered|] && t == Slot(|r.delivered| + 1)
  }

  ghost predicate Inv(r: Ring)
  {
    SharedInv(r) && ProducerInv(r) && ConsumerInv(r)
  }

  lemma SlotFacts(a: nat)
    ensures Slot(a) < KEY_BUFFER_SIZE && (Slot(a) + 1) % KEY_BUFFER_SIZE == Slot(a + 1)
  {}

  /** Positions less than a lap apart share a slot only if they are the same. */
  lemma SlotsDiffer(a: nat, b: nat)
    requires a <= b < a + KEY_BUFFER_SIZE
    ensures Slot(a) == Slot(b) <==> a == b
  {}

  /** The producer's test: the slot after the head is the tail exactly when 255 keys are pending. */
  lemma FullTest(delivered: nat, accepted: nat)
    requires delivered <= accepted < delivered + KEY_BUFFER_SIZE
    ensures Slot(accepted + 1) == Slot(delivered) <==> accepted - delivered == KEY_BUFFER_SIZE - 1
  {
    if accepted - delivered == KEY_BUFFER_SIZE - 1 {
      assert Slot(delivered + KEY_BUFFER_SIZE) == Slot(delivered);
    } else {
      SlotsDiffer(delivered, accepted + 1);
    }
  }

  /** Storing at the head overwrites no undelivered key. */
  lemma StoreKeepsKeys(r: Ring, c: char)
    requires SharedInv(r)
    ensures r.head < KEY_BUFFER_SIZE
    ensures SharedInv(r.(buffer := r.buffer[r.head := c]))
  {
    hide NonZero;
    forall i | |r.delivered| <= i < |r.accepted|
      ensures r.buffer[r.head := c][Slot(i)] == r.accepted[i]
    {
      SlotsDiffer(i, |r.accepted|);
    }
  }

  lemma ProducerKeepsInv(r: Ring, c: char)
    requires Inv(r) && c != NUL
    ensures Inv(ProducerStep(r, c))
  {
    hide Slot, NonZero;
    SlotFacts(|r.accepted|);
    match r.producer {
      case HaveNext(k, next) => FullTest(|r.delivered|, |r.accepted|);
      case HaveSlot(k, next, slot) => StoreKeepsKeys(r, k);
      case _ =>
    }
  }

  /** Moving the tail past the oldest key. */
  lemma DeliverKeepsKeys(r: Ring)
    requires SharedInv(r) && r.Pending() > 0
    ensures var k := r.accepted[|r.delivered|];
            SharedInv(r.(tail := Slot(|r.delivered| + 1), delivered := r.delivered + [k], results := r.results + [k]))
  {
    hide Slot;
    var k := r.accepted[|r.delivered|];
    assert k in r.accepted;
    assert (r.results + [k])[..|r.results|] == r.results;
  }

  lemma ConsumerKeepsInv(r: Ring)
    requires Inv(r)
    ensures Inv(ConsumerStep(r))
  {
    hide Slot;
    SlotFacts(|r.delivered|);
    match r.consumer {
      case HaveHead(h, seen) =>
        SlotsDiffer(|r.delivered|, seen);
        assert (r.results + [NUL])[..|r.results|] == r.results;
      case HaveTail(k, t) => DeliverKeepsKeys(r);
      case _ =>
    }
  }

  /** Every interleaving keeps the invariant. */
  lemma {:induction false} EveryScheduleKeepsInv(schedule: seq<Action>)
    requires NonZeroKeys(schedule)
    ensures Inv(Run(schedule))
  {
    if schedule != [] {
      var before, a := schedule[..|schedule| - 1], schedule[|schedule| - 1];
      assert a in schedule && forall b | b in before :: b in schedule;
      EveryScheduleKeepsInv(before);
      match a {
        case Produce(c) => ProducerKeepsInv(Run(before), c);
        case Consume => ConsumerKeepsInv(Run(before));
      }
    }
  }

  // ---------- what it means ----------

  /** In every interleaving: first in first out, nothing lost or invented, at most 255 pending. */
  lemma DeliveredIsPrefixOfAccepted(schedule: seq<Action>)
    requires NonZeroKeys(schedule)
    ensures var r := Run(schedule);
            && r.delivered <= r.accepted
            && |r.accepted| - |r.delivered| <= 255
            && NonZero(r.results) == r.delivered
  {
    EveryScheduleKeepsInv(schedule);
  }

  /** In every interleaving a store goes to a slot that holds no undelivered key. */
  lemma NoUndeliveredKeyIsOverwritten(schedule: seq<Action>, k: nat)
    requires NonZeroKeys(schedule) && Run(schedule).producer.HaveSlot?
    requires |Run(schedule).delivered| <= k < |Run(schedule).accepted|
    ensures Run(schedule).producer.slot != Slot(k)
    ensures |Run(schedule).buffer| == KEY_BUFFER_SIZE && Run(schedule).buffer[Slot(k)] == Run(schedule).accepted[k]
  {
    EveryScheduleKeepsInv(schedule);
    SlotsDiffer(k, |Run(schedule).accepted|);
  }

  /** When the producer reads key_tail, it drops the key exactly if 255 keys are pending at that moment. */
  lemma DropsExactlyWhenFull(schedule: seq<Action>, c: char)
    requires NonZeroKeys(schedule) && Run(schedule).producer.HaveNext?
    ensures ProducerStep(Run(schedule), c).producer.Waiting? <==> Run(schedule).Pending() == 255
  {
    EveryScheduleKeepsInv(schedule);
    FullTest(|Run(schedule).delivered|, |Run(schedule).accepted|);
  }

  function Keys(tests: seq<Test>): seq<char>
  {
    if tests == [] then [] else Keys(tests[..|tests| - 1]) + [tests[|tests| - 1].key]
  }

  /** The keys that did not meet 255 pending ones, in order. */
  function Kept(tests: seq<Test>): seq<char>
  {
    if tests == [] then []
    else
      var before, last := tests[..|tests| - 1], tests[|tests| - 1];
      Kept(before) + if last.pending == KEY_BUFFER_SIZE - 1 then [] else [last.key]
  }

  /** The key of a call that has not tested for room yet. */
  function Untested(p: Producer): seq<char>
  {
    if p.HaveNext? then [p.c] else []
  }

  /** The key of a call that found room and has not moved key_head yet. */
  function InFlight(p: Producer): seq<char>
  {
    if p.Accepted? || p.HaveSlot? || p.Stored? then [p.c] else []
  }

  ghost predicate NothingElseLost(r: Ring)
  {
    && Keys(r.tests) + Untested(r.producer) == r.pushed
    && Kept(r.tests) == r.accepted + InFlight(r.producer)
  }

  lemma TestsAppend(tests: seq<Test>, t: Test)
    ensures Keys(tests + [t]) == Keys(tests) + [t.key]
    ensures Kept(tests + [t]) == Kept(tests) + if t.pending == KEY_BUFFER_SIZE - 1 then [] else [t.key]
  {
    assert (tests + [t])[..|tests|] == tests;
  }

  lemma ProducerLosesNothingElse(r: Ring, c: char)
    requires Inv(r) && NothingElseLost(r)
    ensures NothingElseLost(ProducerStep(r, c))
  {
    hide Slot, NonZero, Keys, Kept;
    if r.producer.HaveNext? {
      FullTest(|r.delivered|, |r.accepted|);
      TestsAppend(r.tests, Test(r.producer.c, r.Pending()));
    }
  }

  /**
   * In every interleaving the accepted keys, and then the one on its way in, are the pushed keys in order
   * without exactly those that met 255 pending keys when key_tail was read.
   */
  lemma {:induction false} AcceptedArePushedUnlessFull(schedule: seq<Action>)
    requires NonZeroKeys(schedule)
    ensures NothingElseLost(Run(schedule))
  {
    if schedule != [] {
      var before, a := schedule[..|schedule| - 1], schedule[|schedule| - 1];
      assert forall b | b in before :: b in schedule;
      AcceptedArePushedUnlessFull(before);
      EveryScheduleKeepsInv(before);
      hide Inv, NothingElseLost, ProducerStep, ConsumerStep;
      match a {
        case Produce(c) => ProducerLosesNothingElse(Run(before), c);
        case Consume => ConsumerLosesNothing(Run(before));
      }
    }
  }

  lemma ConsumerLosesNothing(r: Ring)
    requires NothingElseLost(r)
    ensures NothingElseLost(ConsumerStep(r))
  {
    hide Keys, Kept;
  }

  /** A read returns zero exactly if no key was pending when it read key_head, and else the oldest key. */
  lemma ZeroMeansEmpty(schedule: seq<Action>)
    requires NonZeroKeys(schedule)
    ensures var r := Run(schedule);
            var q := ConsumerStep(r);
            && (r.consumer.HaveHead? ==> (q.consumer.Resting? <==> r.consumer.seen == |r.delivered|))
            && (r.consumer.HaveHead? && q.consumer.Resting? ==> q.results == r.results + [NUL])
            && (r.consumer.HaveTail? ==> && |r.delivered| < |r.accepted|
                                         && q.results == r.results + [r.accepted[|r.delivered|]]
                                         && r.accepted[|r.delivered|] != NUL)
  {
    EveryScheduleKeepsInv(schedule);
    var r := Run(schedule);
    if r.consumer.HaveHead? {
      SlotsDiffer(|r.delivered|, r.consumer.seen);
    }
    if r.consumer.HaveTail? {
      assert r.accepted[|r.delivered|] in r.accepted;
    }
  }

  function StepN(r: Ring, a: Action, n: nat): Ring
    decreases n
  {
    if n == 0 then r else StepN(Step(r, a), a, n - 1)
  }

  /** Left alone, a call of push_key takes five steps to append its key, or two to drop it. */
  lemma PushAlone(r: Ring, c: char)
    requires Inv(r) && c != NUL && r.producer.Waiting?
    ensures r.Pending() < 255 ==>
              var q := StepN(r, Produce(c), 5);
              && q.producer.Waiting? && q.accepted == r.accepted + [c]
              && q == r.(buffer := q.buffer, head := q.head, accepted := q.accepted,
                         pushed := r.pushed + [c], tests := r.tests + [Test(c, r.Pending())])
    ensures r.Pending() == 255 ==>
              StepN(r, Produce(c), 2) == r.(pushed := r.pushed + [c], tests := r.tests + [Test(c, 255)])
  {
    hide Slot, NonZero, StepN, ProducerStep;
    SlotFacts(|r.accepted|);
    FullTest(|r.delivered|, |r.accepted|);
    if r.Pending() == 255 {
      KeyIsDropped(r, c);
    } else {
      KeyIsStored(r, c);
    }
  }

  lemma KeyIsDropped(r: Ring, c: char)
    requires r.producer.Waiting? && (r.head + 1) % KEY_BUFFER_SIZE == r.tail
    ensures StepN(r, Produce(c), 2) ==
            r.(pushed := r.pushed + [c], tests := r.tests + [Test(c, r.Pending())])
  {
    StepTwice(r, Produce(c));
    NextIsComputed(r, c);
    hide Step, StepN;
    var r1 := Step(r, Produce(c));
    RoomIsTested(r1, c);
    assert r1.producer == HaveNext(c, r1.tail) && r1.Pending() == r.Pending();
    assert Step(r1, Produce(c)) == r1.(producer := Waiting, tests := r.tests + [Test(c, r.Pending())]);
  }

  lemma NextIsComputed(r: Ring, c: char)
    requires r.producer.Waiting?
    ensures Step(r, Produce(c)) ==
            r.(producer := HaveNext(c, (r.head + 1) % KEY_BUFFER_SIZE), pushed := r.pushed + [c])
  {}

  lemma RoomIsTested(r: Ring, c: char)
    requires r.producer.HaveNext?
    ensures var p := r.producer;
            Step(r, Produce(c)) ==
            r.(producer := if p.next != r.tail then Accepted(p.c, p.next) else Waiting,
               tests := r.tests + [Test(p.c, r.Pending())])
  {}

  lemma StepTwice(r: Ring, a: Action)
    ensures StepN(r, a, 2) == Step(Step(r, a), a)
  {
    hide Step;
  }

  lemma KeyIsStored(r: Ring, c: char)
    requires r.producer.Waiting? && (r.head + 1) % KEY_BUFFER_SIZE != r.tail && r.head < |r.buffer|
    ensures StepN(r, Produce(c), 5) ==
            r.(buffer := r.buffer[r.head := c], head := (r.head + 1) % KEY_BUFFER_SIZE,
               accepted := r.accepted + [c], pushed := r.pushed + [c], tests := r.tests + [Test(c, r.Pending())])
  {
    hide ConsumerStep;
    var p, next := Produce(c), (r.head + 1) % KEY_BUFFER_SIZE;
    NextIsComputed(r, c);
    var r1 := Step(r, p);
    RoomIsTested(r1, c);
    var r2 := Step(r1, p);
    assert r2 == r.(producer := Accepted(c, next), pushed := r.pushed + [c],
                    tests := r.tests + [Test(c, r.Pending())]);
    var r3 := Step(r2, p);
    var r4 := Step(r3, p);
    assert StepN(r2, p, 3) == Step(r4, p);
    assert StepN(r, p, 5) == StepN(r2, p, 3);
  }

  /** Left alone, keyboard_get_char takes two steps to report an empty ring, or six to deliver the oldest key. */
  lemma GetAlone(r: Ring)
    requires Inv(r) && r.consumer.Resting?
    ensures r.Pending() == 0 ==> StepN(r, Consume, 2) == r.(results := r.results + [NUL])
    ensures r.Pending() > 0 ==>
              StepN(r, Consume, 6) ==
              r.(tail := Slot(|r.delivered| + 1), delivered := r.delivered + [r.accepted[|r.delivered|]],
                 results := r.results + [r.accepted[|r.delivered|]])
  {
    hide Slot, NonZero, ProducerStep, ProducerInv, ConsumerInv;
    SlotsDiffer(|r.delivered|, |r.accepted|);
    SlotFacts(|r.delivered|);
    var r1 := Step(r, Consume);
    var r2 := Step(r1, Consume);
    assert StepN(r, Consume, 2) == r2;
    if r.Pending() > 0 {
      assert r2 == r.(consumer := NotEmpty);
      OldestIsDelivered(r);
      assert StepN(r, Consume, 6) == StepN(r2, Consume, 4);
    }
  }

  /** The second half of such a call. */
  lemma OldestIsDelivered(r: Ring)
    requires SharedInv(r) && r.Pending() > 0
    ensures var k := r.accepted[|r.delivered|];
            StepN(r.(consumer := NotEmpty), Consume, 4) ==
            r.(consumer := Resting, tail := Slot(|r.delivered| + 1), delivered := r.delivered + [k],
               results := r.results + [k])
  {
    SlotFacts(|r.delivered|);
    var k := r.accepted[|r.delivered|];
    assert r.tail < |r.buffer| && r.buffer[r.tail] == k && (r.tail + 1) % KEY_BUFFER_SIZE == Slot(|r.delivered| + 1);
    hide Slot, NonZero, ProducerStep, SharedInv;
    var r3 := Step(r.(consumer := NotEmpty), Consume);
    var r4 := Step(r3, Consume);
    assert r4 == r.(consumer := HaveChar(k));
    var r5 := Step(r4, Consume);
    assert StepN(r3, Consume, 3) == Step(r5, Consume);
  }
}
