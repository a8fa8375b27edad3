/** The single-producer single-consumer observer queue as a two-thread step
  * system.
  */
module ObserverQueue {
  // Every atomic load and store of the C functions is a step of its own, and so
  // is the copy of each word of a block.  An acquire load may return any value
  // the other thread stored, no older than the last one this thread saw.  The
  // counters are 32-bit and wrap; the histories `published` and `taken` do not.

  import opened Words
  import AirErrors

  const CAPACITY := 8
  const MODULUS := 0x1_0000_0000

  type Word = byte
  type Block = seq<Word>

  /** Where `lm_rt_publish` stands, with the values it has loaded. */
  datatype Producer =
    | PIdle
    | PHasHead(block: Block, h: u32)
    | PFull
    | PCopying(block: Block, h: u32, done: nat)

  /** Where `lm_rt_take` stands. */
  datatype Consumer =
    | CIdle
    | CHasTail(t: u32)
    | CCopying(t: u32, copied: Block)

  datatype Queue = Queue(
    words: nat,
    slots: seq<Block>, head: u32, tail: u32, dropped: u32,
    producer: Producer, consumer: Consumer,
    // what was observed: the newest store of the other thread each one has seen
    seenTail: nat, seenHead: nat,
    // what happened: blocks published and taken, calls refused, calls returned
    published: seq<Block>, taken: seq<Block>, refused: nat, returned: nat)

  datatype Action =
    | PublishLoadHead(block: Block)
    | PublishLoadTail(value: nat)
    | PublishDrop
    | PublishCopyWord
    | PublishStoreHead
    | TakeLoadTail
    | TakeLoadHead(value: nat)
    | TakeCopyWord
    | TakeStoreTail

  /** `a - b` on unsigned counters */
  function Minus(a: u32, b: u32): u32 { (a - b) % MODULUS }

  function Plus1(a: u32): u32 { (a + 1) % MODULUS }

  predicate WellSized(q: Queue) {
    |q.slots| == CAPACITY && (forall i :: 0 <= i < CAPACITY ==> |q.slots[i]| == q.words)
    && (q.producer.PHasHead? || q.producer.PCopying? ==> |q.producer.block| == q.words)
    && (q.producer.PCopying? ==> q.producer.done <= q.words)
    && (q.consumer.CCopying? ==> |q.consumer.copied| <= q.words)
  }

  /** Program order of each thread, and the values a load may return. */
  predicate Enabled(q: Queue, a: Action) {
    match a
    case PublishLoadHead(block) => q.producer.PIdle? && |block| == q.words
    case PublishLoadTail(value) => q.producer.PHasHead? && q.seenTail <= value <= |q.taken|
    case PublishDrop => q.producer.PFull?
    case PublishCopyWord => q.producer.PCopying? && q.producer.done < q.words
    case PublishStoreHead => q.producer.PCopying? && q.producer.done == q.words
    case TakeLoadTail => q.consumer.CIdle?
    case TakeLoadHead(value) => q.consumer.CHasTail? && q.seenHead <= value <= |q.published|
    case TakeCopyWord => q.consumer.CCopying? && |q.consumer.copied| < q.words
    case TakeStoreTail => q.consumer.CCopying? && |q.consumer.copied| == q.words
  }

  function Step(q: Queue, a: Action): (r: Queue)
    requires WellSized(q) && Enabled(q, a)
    ensures WellSized(r) && r.words == q.words
  {
    match a
    case PublishLoadHead(block) => q.(producer := PHasHead(block, q.head))
    case PublishLoadTail(value) =>
      var h, t := q.producer.h, value % MODULUS;
      q.(seenTail := value,
         producer := if Minus(h, t) >= CAPACITY then PFull else PCopying(q.producer.block, h, 0))
    case PublishDrop =>
      q.(dropped := Plus1(q.dropped), producer := PIdle, refused := q.refused + 1, returned := q.returned + 1)
    case PublishCopyWord =>
      var i, k := q.producer.h % CAPACITY, q.producer.done;
      q.(slots := q.slots[i := q.slots[i][k := q.producer.block[k]]], producer := q.producer.(done := k + 1))
    case PublishStoreHead =>
      q.(head := Plus1(q.producer.h), producer := PIdle,
         published := q.published + [q.producer.block], returned := q.returned + 1)
    case TakeLoadTail => q.(consumer := CHasTail(q.tail))
    case TakeLoadHead(value) =>
      var t, h := q.consumer.t, value % MODULUS;
      q.(seenHead := value, consumer := if h == t then CIdle else CCopying(t, []))
    case TakeCopyWord =>
      var i, k := q.consumer.t % CAPACITY, |q.consumer.copied|;
      q.(consumer := q.consumer.(copied := q.consumer.copied + [q.slots[i][k]]))
    case TakeStoreTail =>
      q.(tail := Plus1(q.consumer.t), consumer := CIdle, taken := q.taken + [q.consumer.copied])
  }

  function Initial(words: nat): Queue {
    Queue(words, seq(CAPACITY, _ => seq(words, _ => 0)), 0, 0, 0, PIdle, CIdle, 0, 0, [], [], 0, 0)
  }

  // ------------------------------------------------------------ the invariant

  predicate Counters(q: Queue) {
    var H, T := |q.published|, |q.taken|;
    && q.seenTail <= T <= q.seenHead <= H <= q.seenTail + CAPACITY
    && q.head == H % MODULUS && q.tail == T % MODULUS && q.dropped == q.refused % MODULUS
    && q.refused + H == q.returned
  }

  predicate Contents(q: Queue)
    requires WellSized(q)
  {
    var H, T := |q.published|, |q.taken|;
    && T <= H
    && q.taken == q.published[..T]
    && (forall i :: 0 <= i < H ==> |q.published[i]| == q.words)
    && (forall i :: T <= i < H ==> q.slots[i % CAPACITY] == q.published[i])
  }

  predicate ProducerOk(q: Queue)
    requires WellSized(q)
  {
    var H := |q.published|;
    match q.producer
    case PIdle => true
    case PHasHead(_, h) => h == H % MODULUS
    case PFull => H == q.seenTail + CAPACITY
    case PCopying(block, h, done) =>
      h == H % MODULUS && H < q.seenTail + CAPACITY && q.slots[H % CAPACITY][..done] == block[..done]
  }

  predicate ConsumerOk(q: Queue)
    requires WellSized(q)
  {
    var T := |q.taken|;
    match q.consumer
    case CIdle => true
    case CHasTail(t) => t == T % MODULUS
    case CCopying(t, copied) =>
      t == T % MODULUS && T < q.seenHead <= |q.published| && |q.published[T]| == q.words
      && copied == q.published[T][..|copied|]
  }

  predicate Inv(q: Queue) {
    WellSized(q) && Counters(q) && Contents(q) && ProducerOk(q) && ConsumerOk(q)
  }

  lemma InitialInv(words: nat)
    ensures Inv(Initial(words))
  {}

  /** The wrapping difference of two counters within one capacity is exact. */
  lemma WrapDifference(a: nat, b: nat)
    requires b <= a <= b + CAPACITY
    ensures Minus(a % MODULUS, b % MODULUS) == a - b
    ensures a % MODULUS == b % MODULUS <==> a == b
  {}

  /** The slot of a wrapped counter is the slot of the true count, because the
    * capacity divides the modulus. */
  lemma WrapSlot(n: nat)
    ensures n % MODULUS % CAPACITY == n % CAPACITY
    ensures Plus1(n % MODULUS) == (n + 1) % MODULUS
  {
    assert n == MODULUS * (n / MODULUS) + n % MODULUS;
  }

  lemma SlotsDistinct(i: nat, j: nat)
    requires i < j < i + CAPACITY
    ensures i % CAPACITY != j % CAPACITY
  {}

  lemma StepKeepsInv(q: Queue, a: Action)
    requires Inv(q) && Enabled(q, a)
    ensures Inv(Step(q, a))
  {
    hide Minus, Plus1;
    match a {
      case PublishLoadHead(block) =>
      case PublishLoadTail(value) => WrapDifference(|q.published|, value);
      case PublishDrop => WrapSlot(q.refused);
      case PublishCopyWord => CopyIn(q);
      case PublishStoreHead => StoreHead(q);
      case TakeLoadTail =>
      case TakeLoadHead(value) => WrapDifference(value, |q.taken|);
      case TakeCopyWord => CopyOut(q);
      case TakeStoreTail => StoreTail(q);
    }
  }

  lemma CopyIn(q: Queue)
    requires Inv(q) && Enabled(q, PublishCopyWord)
    ensures Inv(Step(q, PublishCopyWord))
  {
    var r, H, T, k := Step(q, PublishCopyWord), |q.published|, |q.taken|, q.producer.done;
    WrapSlot(H);
    assert r.slots[H % CAPACITY][..k + 1] == q.slots[H % CAPACITY][..k] + [q.producer.block[k]];
    forall i | T <= i < H ensures r.slots[i % CAPACITY] == q.published[i] { SlotsDistinct(i, H); }
  }

  lemma StoreHead(q: Queue)
    requires Inv(q) && Enabled(q, PublishStoreHead)
    ensures Inv(Step(q, PublishStoreHead))
  {
    var r, H, T := Step(q, PublishStoreHead), |q.published|, |q.taken|;
    WrapSlot(H);
    assert q.slots[H % CAPACITY] == q.producer.block;
    forall i | T <= i < H + 1 ensures r.slots[i % CAPACITY] == r.published[i] {}
    assert r.published[..T] == q.published[..T];
  }

  lemma CopyOut(q: Queue)
    requires Inv(q) && Enabled(q, TakeCopyWord)
    ensures Inv(Step(q, TakeCopyWord))
  {
    var T, k := |q.taken|, |q.consumer.copied|;
    WrapSlot(T);
    assert q.slots[T % CAPACITY] == q.published[T];
    assert q.published[T][..k + 1] == q.published[T][..k] + [q.published[T][k]];
  }

  lemma StoreTail(q: Queue)
    requires Inv(q) && Enabled(q, TakeStoreTail)
    ensures Inv(Step(q, TakeStoreTail))
  {
    var T := |q.taken|;
    WrapSlot(T);
    assert q.consumer.copied == q.published[T];
    assert q.published[..T + 1] == q.published[..T] + [q.published[T]];
  }

  // -------------------------------------------------------------- every run

  /** The queue after a list of actions from both threads; an action that is
    * not enabled where it stands is passed over. */
  function After(words: nat, actions: seq<Action>): Queue {
    if actions == [] then Initial(words)
    else
      var before := After(words, actions[..|actions| - 1]);
      if WellSized(before) && Enabled(before, actions[|actions| - 1]) then Step(before, actions[|actions| - 1])
      else before
  }

  lemma {:induction false} RunInv(words: nat, actions: seq<Action>)
    ensures Inv(After(words, actions))
  {
    hide Inv, Enabled, Step, Initial;
    if actions == [] {
      InitialInv(words);
    } else {
      var before, a := After(words, actions[..|actions| - 1]), actions[|actions| - 1];
      RunInv(words, actions[..|actions| - 1]);
      if WellSized(before) && Enabled(before, a) { StepKeepsInv(before, a); }
    }
  }

  /** Safety of every interleaving, stale loads and wrapped counters included:
    * the consumer has taken a prefix of what was published, whole and in order;
    * at most eight blocks are in flight; the block being copied out is so far
    * word for word the next one due; no slot is written while it is read; every
    * returned call either published or was counted as dropped. */
  lemma EveryRunIsSafe(words: nat, actions: seq<Action>)
    ensures var q := After(words, actions);
            && q.taken <= q.published && |q.published| - |q.taken| <= CAPACITY
            && (q.consumer.CCopying? ==> |q.taken| < |q.published| && q.consumer.copied <= q.published[|q.taken|])
            && (q.producer.PCopying? && q.consumer.CCopying? ==> q.producer.h % CAPACITY != q.consumer.t % CAPACITY)
            && q.returned == |q.published| + q.refused && q.dropped == q.refused % MODULUS
  {
    hide Step, After, Enabled;
    RunInv(words, actions);
    var q := After(words, actions);
    var H, T := |q.published|, |q.taken|;
    if q.producer.PCopying? && q.consumer.CCopying? {
      WrapSlot(H);
      WrapSlot(T);
      SlotsDistinct(T, H);
    }
  }

  /** A call is refused only if eight published blocks were untaken as far as
    * the producer could see, and an accepted one always finds a free slot. */
  lemma RefusedOnlyWhenSeenFull(words: nat, actions: seq<Action>, value: nat)
    requires var q := After(words, actions); Enabled(q, PublishLoadTail(value))
    ensures var q := After(words, actions);
            WellSized(q) && (Step(q, PublishLoadTail(value)).producer.PFull? <==> |q.published| - value == CAPACITY)
  {
    hide After;
    RunInv(words, actions);
    WrapDifference(|After(words, actions).published|, value);
    hide Minus;
  }

  /** `lm_rt_take` returns empty only if every block it could see is taken. */
  lemma EmptyOnlyWhenSeenEmpty(words: nat, actions: seq<Action>, value: nat)
    requires var q := After(words, actions); Enabled(q, TakeLoadHead(value))
    ensures var q := After(words, actions);
            WellSized(q) && (Step(q, TakeLoadHead(value)).consumer.CIdle? <==> value == |q.taken|)
  {
    hide After;
    RunInv(words, actions);
    WrapDifference(value, |After(words, actions).taken|);
    hide Minus;
  }

  /** Nothing published or taken is ever lost or rewritten later. */
  lemma {:induction false} HistoriesGrow(words: nat, actions: seq<Action>, more: seq<Action>)
    ensures var q, r := After(words, actions), After(words, actions + more);
            q.published <= r.published && q.taken <= r.taken && q.returned <= r.returned
  {
    hide Enabled, WellSized;
    if more == [] {
      assert actions + more == actions;
    } else {
      var m := more[..|more| - 1];
      assert (actions + more)[..|actions + more| - 1] == actions + m;
      HistoriesGrow(words, actions, m);
    }
  }

  // ------------------------------------------------ what the calls asked for and got

  /** The last action of the list is carried out where it stands. */
  predicate Done(words: nat, actions: seq<Action>)
    requires actions != []
  {
    var before := After(words, actions[..|actions| - 1]);
    WellSized(before) && Enabled(before, actions[|actions| - 1])
  }

  /** The block the publishing call under way was given. */
  function Given(words: nat, actions: seq<Action>): Block {
    if actions == [] then []
    else
      var a := actions[|actions| - 1];
      if a.PublishLoadHead? && Done(words, actions) then a.block else Given(words, actions[..|actions| - 1])
  }

  /** The blocks given to the calls that returned after storing one. */
  function Accepted(words: nat, actions: seq<Action>): seq<Block> {
    if actions == [] then []
    else
      var front := actions[..|actions| - 1];
      if actions[|actions| - 1].PublishStoreHead? && Done(words, actions) then
        Accepted(words, front) + [Given(words, front)]
      else Accepted(words, front)
  }

  /** The words the taking call under way has read, slot word by slot word. */
  function HasRead(words: nat, actions: seq<Action>): Block {
    if actions == [] then []
    else
      var front, a := actions[..|actions| - 1], actions[|actions| - 1];
      var q := After(words, front);
      if a.TakeLoadHead? && Done(words, actions) then []
      else if a.TakeCopyWord? && Done(words, actions) then
        HasRead(words, front) + [q.slots[q.consumer.t % CAPACITY][|q.consumer.copied|]]
      else HasRead(words, front)
  }

  /** The blocks handed to the calls that returned with one. */
  function HandedOut(words: nat, actions: seq<Action>): seq<Block> {
    if actions == [] then []
    else
      var front := actions[..|actions| - 1];
      if actions[|actions| - 1].TakeStoreTail? && Done(words, actions) then
        HandedOut(words, front) + [HasRead(words, front)]
      else HandedOut(words, front)
  }

  /** Calls that were refused. */
  function Dropped(words: nat, actions: seq<Action>): nat {
    if actions == [] then 0
    else
      Dropped(words, actions[..|actions| - 1])
      + if actions[|actions| - 1].PublishDrop? && Done(words, actions) then 1 else 0
  }

  /** The histories of the queue are those of its calls: what was published is
    * what accepted calls were given, what was taken is what taking calls read,
    * and every refused call was counted. */
  lemma {:induction false} HistoriesAreCalls(words: nat, actions: seq<Action>)
    ensures var q := After(words, actions);
            && q.published == Accepted(words, actions) && q.taken == HandedOut(words, actions)
            && q.refused == Dropped(words, actions)
            && (q.producer.PHasHead? || q.producer.PCopying? ==> q.producer.block == Given(words, actions))
            && (q.consumer.CCopying? ==> q.consumer.copied == HasRead(words, actions))
  {
    hide WellSized, Enabled, Initial, Minus, Plus1;
    if actions == [] {
      FreshHistories(words);
    } else {
      var front, a := actions[..|actions| - 1], actions[|actions| - 1];
      HistoriesAreCalls(words, front);
      if Done(words, actions) { CallStep(After(words, front), a); }
    }
  }

  lemma FreshHistories(words: nat)
    ensures var q := Initial(words);
            q.published == [] && q.taken == [] && q.refused == 0 && q.producer.PIdle? && q.consumer.CIdle?
  {}

  /** What one step adds to the histories and to the calls under way. */
  lemma CallStep(q: Queue, a: Action)
    requires WellSized(q) && Enabled(q, a)
    ensures var r := Step(q, a);
            && r.published == (if a.PublishStoreHead? then q.published + [q.producer.block] else q.published)
            && r.taken == (if a.TakeStoreTail? then q.taken + [q.consumer.copied] else q.taken)
            && r.refused == (if a.PublishDrop? then q.refused + 1 else q.refused)
            && (r.producer.PHasHead? || r.producer.PCopying? ==>
                  if a.PublishLoadHead? then r.producer.block == a.block
                  else (q.producer.PHasHead? || q.producer.PCopying?) && r.producer.block == q.producer.block)
            && (a.PublishStoreHead? ==> q.producer.PCopying?)
            && (a.TakeStoreTail? ==> q.consumer.CCopying?)
            && (r.consumer.CCopying? ==>
                  if a.TakeLoadHead? then r.consumer.copied == []
                  else q.consumer.CCopying?
                       && r.consumer.copied
                          == if !a.TakeCopyWord? then q.consumer.copied
                             else q.consumer.copied + [q.slots[q.consumer.t % CAPACITY][|q.consumer.copied|]])
  {
    hide Minus, Plus1;
  }

  // -------------------------------------------------------------- one call alone

  /** The queue after the actions, each of them enabled where it stands. */
  function Ran(q: Queue, actions: seq<Action>): AirErrors.Option<Queue>
    decreases |actions|
  {
    if actions == [] then AirErrors.Some(q)
    else if WellSized(q) && Enabled(q, actions[0]) then Ran(Step(q, actions[0]), actions[1..])
    else AirErrors.None
  }

  function Times(a: Action, n: nat): seq<Action> { seq(n, _ => a) }

  lemma RanFirst(q: Queue, a: Action, rest: seq<Action>)
    requires WellSized(q) && Enabled(q, a)
    ensures Ran(q, [a] + rest) == Ran(Step(q, a), rest)
  {
    hide Step, Enabled, WellSized;
    assert ([a] + rest)[1..] == rest;
  }

  /** A publishing call that sees `seen` blocks taken: refused and counted if that
    * leaves eight, else its block is the newest and lies in its slot. */
  lemma PublishAlone(q: Queue, block: Block, seen: nat)
    requires Inv(q) && q.producer.PIdle? && |block| == q.words && q.seenTail <= seen <= |q.taken|
    ensures var n := |q.published|;
            if n - seen >= 8 then
              Ran(q, [PublishLoadHead(block), PublishLoadTail(seen), PublishDrop])
              == AirErrors.Some(q.(seenTail := seen, dropped := (q.dropped + 1) % 0x1_0000_0000,
                                   refused := q.refused + 1, returned := q.returned + 1))
            else
              Ran(q, [PublishLoadHead(block)] + ([PublishLoadTail(seen)] + (Times(PublishCopyWord, q.words)
                                                                            + [PublishStoreHead])))
              == AirErrors.Some(q.(seenTail := seen, slots := q.slots[n % 8 := block],
                                   head := (n + 1) % 0x1_0000_0000, published := q.published + [block],
                                   returned := q.returned + 1))
  {
    var n := |q.published|;
    var load, look, copies, store := PublishLoadHead(block), PublishLoadTail(seen), Times(PublishCopyWord, q.words),
                                     [PublishStoreHead];
    PublishBegins(q, block, seen);
    var q1 := Step(q, load);
    var q2 := Step(q1, look);
    hide Inv, Step, Enabled, WellSized, Ran;
    if n - seen >= 8 {
      RanFirst(q, load, [look, PublishDrop]);
      RanFirst(q1, look, [PublishDrop]);
      LastStep(q2, PublishDrop);
      assert [load] + [look, PublishDrop] == [load, look, PublishDrop];
      assert [look] + [PublishDrop] == [look, PublishDrop];
    } else {
      RanFirst(q, load, [look] + (copies + store));
      RanFirst(q1, look, copies + store);
      CopiesIn(q2, q.words, store);
      PublishEnds(q, q2, block, seen);
    }
  }

  /** The call up to its decision. */
  lemma PublishBegins(q: Queue, block: Block, seen: nat)
    requires Inv(q) && q.producer.PIdle? && |block| == q.words && q.seenTail <= seen <= |q.taken|
    ensures WellSized(q) && Enabled(q, PublishLoadHead(block))
    ensures Enabled(Step(q, PublishLoadHead(block)), PublishLoadTail(seen))
    ensures var n, q2 := |q.published|, Step(Step(q, PublishLoadHead(block)), PublishLoadTail(seen));
            if n - seen >= 8 then
              Enabled(q2, PublishDrop)
              && Step(q2, PublishDrop) == q.(seenTail := seen, dropped := (q.dropped + 1) % 0x1_0000_0000,
                                             refused := q.refused + 1, returned := q.returned + 1)
            else q2 == q.(seenTail := seen, producer := PCopying(block, n % 0x1_0000_0000, 0))
  {
    WrapDifference(|q.published|, seen);
    hide Minus;
  }

  /** The call from its copied block on. */
  lemma PublishEnds(q: Queue, q2: Queue, block: Block, seen: nat)
    requires Inv(q) && q.producer.PIdle? && |block| == q.words && |q.published| - seen < 8
    requires q2 == q.(seenTail := seen, producer := PCopying(block, |q.published| % 0x1_0000_0000, 0))
    ensures var n, i := |q.published|, q2.producer.h % CAPACITY;
            var q3 := q2.(slots := q2.slots[i := q2.slots[i][..0] + q2.producer.block[0..]],
                          producer := q2.producer.(done := q2.words));
            Ran(q3, [PublishStoreHead])
            == AirErrors.Some(q.(seenTail := seen, slots := q.slots[n % 8 := block],
                                 head := (n + 1) % 0x1_0000_0000, published := q.published + [block],
                                 returned := q.returned + 1))
  {
    var n := |q.published|;
    WrapSlot(n);
    var q3 := q2.(slots := q2.slots[n % 8 := block], producer := q2.producer.(done := q2.words));
    assert q2.slots[n % 8][..0] + block[0..] == block;
    LastStep(q3, PublishStoreHead);
  }

  lemma LastStep(q: Queue, a: Action)
    requires WellSized(q) && Enabled(q, a)
    ensures Ran(q, [a]) == AirErrors.Some(Step(q, a))
  {
    hide Step, Enabled, WellSized;
  }

  /** The copying loop fills the rest of the slot. */
  lemma {:induction false} CopiesIn(q: Queue, n: nat, rest: seq<Action>)
    requires WellSized(q) && q.producer.PCopying? && q.producer.done + n == q.words
    ensures var i, done := q.producer.h % CAPACITY, q.producer.done;
            Ran(q, Times(PublishCopyWord, n) + rest)
            == Ran(q.(slots := q.slots[i := q.slots[i][..done] + q.producer.block[done..]],
                      producer := q.producer.(done := q.words)), rest)
    decreases n
  {
    var i, done := q.producer.h % CAPACITY, q.producer.done;
    if n == 0 {
      assert Times(PublishCopyWord, n) + rest == rest;
      assert q.slots[i][..done] + q.producer.block[done..] == q.slots[i];
      assert q.slots[i := q.slots[i]] == q.slots;
    } else {
      var r := Step(q, PublishCopyWord);
      assert Times(PublishCopyWord, n) + rest == [PublishCopyWord] + (Times(PublishCopyWord, n - 1) + rest);
      RanFirst(q, PublishCopyWord, Times(PublishCopyWord, n - 1) + rest);
      CopiesIn(r, n - 1, rest);
      assert r.slots[i][..done + 1] + q.producer.block[done + 1..] == q.slots[i][..done] + q.producer.block[done..];
      assert r.slots[i := q.slots[i][..done] + q.producer.block[done..]]
          == q.slots[i := q.slots[i][..done] + q.producer.block[done..]];
    }
  }

  /** A taking call that sees `seen` blocks published: nothing if all of them are
    * taken, else the oldest that is not. */
  lemma TakeAlone(q: Queue, seen: nat)
    requires Inv(q) && q.consumer.CIdle? && q.seenHead <= seen <= |q.published|
    ensures var n := |q.taken|;
            if n == seen then
              Ran(q, [TakeLoadTail, TakeLoadHead(seen)]) == AirErrors.Some(q.(seenHead := seen))
            else
              Ran(q, [TakeLoadTail] + ([TakeLoadHead(seen)] + (Times(TakeCopyWord, q.words) + [TakeStoreTail])))
              == AirErrors.Some(q.(seenHead := seen, tail := (n + 1) % 0x1_0000_0000,
                                   taken := q.taken + [q.published[n]]))
  {
    var n := |q.taken|;
    var load, look, copies, store := TakeLoadTail, TakeLoadHead(seen), Times(TakeCopyWord, q.words), [TakeStoreTail];
    TakeBegins(q, seen);
    var q1 := Step(q, load);
    var q2 := Step(q1, look);
    hide Inv, Step, Enabled, WellSized, Ran;
    if n == seen {
      RanFirst(q, load, [look]);
      LastStep(q1, look);
      assert [load] + [look] == [load, look];
    } else {
      RanFirst(q, load, [look] + (copies + store));
      RanFirst(q1, look, copies + store);
      CopiesOut(q2, q.words, store);
      TakeEnds(q, q2, seen);
    }
  }

  lemma TakeBegins(q: Queue, seen: nat)
    requires Inv(q) && q.consumer.CIdle? && q.seenHead <= seen <= |q.published|
    ensures WellSized(q) && Enabled(q, TakeLoadTail)
    ensures Enabled(Step(q, TakeLoadTail), TakeLoadHead(seen))
    ensures var n, q2 := |q.taken|, Step(Step(q, TakeLoadTail), TakeLoadHead(seen));
            q2 == q.(seenHead := seen, consumer := if n == seen then CIdle else CCopying(n % 0x1_0000_0000, []))
  {
    WrapDifference(seen, |q.taken|);
    hide Minus;
  }

  lemma TakeEnds(q: Queue, q2: Queue, seen: nat)
    requires Inv(q) && q.consumer.CIdle? && |q.taken| < seen <= |q.published|
    requires q2 == q.(seenHead := seen, consumer := CCopying(|q.taken| % 0x1_0000_0000, []))
    ensures var n, slot := |q.taken|, q2.slots[q2.consumer.t % CAPACITY];
            Ran(q2.(consumer := q2.consumer.(copied := q2.consumer.copied + slot[|q2.consumer.copied|..])),
                [TakeStoreTail])
            == AirErrors.Some(q.(seenHead := seen, tail := (n + 1) % 0x1_0000_0000,
                                 taken := q.taken + [q.published[n]]))
  {
    var n := |q.taken|;
    WrapSlot(n);
    var q3 := q2.(consumer := q2.consumer.(copied := q.slots[n % 8]));
    assert [] + q.slots[n % 8][0..] == q.slots[n % 8] == q.published[n];
    LastStep(q3, TakeStoreTail);
  }

  lemma {:induction false} CopiesOut(q: Queue, n: nat, rest: seq<Action>)
    requires WellSized(q) && q.consumer.CCopying? && |q.consumer.copied| + n == q.words
    ensures var slot, copied := q.slots[q.consumer.t % CAPACITY], q.consumer.copied;
            Ran(q, Times(TakeCopyWord, n) + rest)
            == Ran(q.(consumer := q.consumer.(copied := copied + slot[|copied|..])), rest)
    decreases n
  {
    var slot, copied := q.slots[q.consumer.t % CAPACITY], q.consumer.copied;
    if n == 0 {
      assert Times(TakeCopyWord, n) + rest == rest;
      assert copied + slot[|copied|..] == copied;
    } else {
      var r := Step(q, TakeCopyWord);
      assert Times(TakeCopyWord, n) + rest == [TakeCopyWord] + (Times(TakeCopyWord, n - 1) + rest);
      RanFirst(q, TakeCopyWord, Times(TakeCopyWord, n - 1) + rest);
      CopiesOut(r, n - 1, rest);
      assert copied + [slot[|copied|]] + slot[|copied| + 1..] == copied + slot[|copied|..];
    }
  }
}
