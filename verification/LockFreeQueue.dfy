/** FixedSizeLockFreeQueue of atomicops.h: one producer thread, one consumer thread, two 32-bit
    counters that wrap, one array, no lock.  `size_t` and the counters are 32 bits wide, and every
    step below is atomic. */
module LockFreeQueues {

  const WORD := 0x1_0000_0000

  // ---------- The protocol ----------

  /** Where the producer is inside PushBack. */
  datatype Producer<T> = Outside | Admitted(value: T) | Writing(value: T) | Written(value: T)

  /** Where the consumer is inside PeekFront or PopFront. */
  datatype Consumer<T> = Away | Cleared(pop: bool) | Reading(pop: bool) | HasRead(pop: bool, value: T)

  /** The shared fields, the two program counters, and what has been pushed and popped so far. */
  datatype Queue<T> = Queue(
    capacity: nat,
    pushedCount: nat,
    poppedCount: nat,
    data: seq<T>,
    producer: Producer<T>,
    consumer: Consumer<T>,
    pushed: seq<T>,
    popped: seq<T>)

  datatype Action<T> =
    | BeginPush(value: T)   // the tests of capacity_ and IsFull
    | StartWrite            // the store into data_ begins
    | FinishWrite           // ... and is complete
    | Publish               // AtomicIncrement(&pushed_count_)
    | BeginFront(pop: bool) // the tests of capacity_ and IsEmpty
    | StartRead             // the load from data_ begins
    | FinishRead            // ... and is complete
    | Release               // AtomicIncrement(&popped_count_), for PopFront

  predicate IsFull<T>(q: Queue<T>) {
    q.pushedCount == (q.poppedCount + q.capacity) % WORD
  }

  predicate IsEmpty<T>(q: Queue<T>) {
    q.pushedCount == q.poppedCount
  }

  /** Size(), in the counters' arithmetic. */
  function Size<T>(q: Queue<T>): nat {
    (q.pushedCount - q.poppedCount) % WORD
  }

  function Initial<T>(data: seq<T>): Queue<T> {
    Queue(|data|, 0, 0, data, Outside, Away, [], [])
  }

  /** One atomic step; an action that does not fit the program counters changes nothing. */
  function Step<T>(q: Queue<T>, a: Action<T>): Queue<T>
  {
    match a
    case BeginPush(value) =>
      if q.producer == Outside && q.capacity > 0 && !IsFull(q) then q.(producer := Admitted(value)) else q
    case StartWrite =>
      if q.producer.Admitted? then q.(producer := Writing(q.producer.value)) else q
    case FinishWrite =>
      if q.producer.Writing? && 0 < q.capacity == |q.data| then
        q.(producer := Written(q.producer.value),
           data := q.data[q.pushedCount % q.capacity := q.producer.value])
      else q
    case Publish =>
      if q.producer.Written? then
        q.(producer := Outside, pushedCount := (q.pushedCount + 1) % WORD, pushed := q.pushed + [q.producer.value])
      else q
    case BeginFront(pop) =>
      if q.consumer == Away && q.capacity > 0 && !IsEmpty(q) then q.(consumer := Cleared(pop)) else q
    case StartRead =>
      if q.consumer.Cleared? then q.(consumer := Reading(q.consumer.pop)) else q
    case FinishRead =>
      if q.consumer.Reading? && 0 < q.capacity == |q.data| then
        q.(consumer := HasRead(q.consumer.pop, q.data[q.poppedCount % q.capacity]))
      else q
    case Release =>
      if !q.consumer.HasRead? then q
      else if q.consumer.pop then
        q.(consumer := Away, poppedCount := (q.poppedCount + 1) % WORD, popped := q.popped + [q.consumer.value])
      else q.(consumer := Away)
  }

  /** Any interleaving of the two threads. */
  function Run<T>(q: Queue<T>, actions: seq<Action<T>>): Queue<T> {
    if actions == [] then q else Step(Run(q, actions[..|actions| - 1]), actions[|actions| - 1])
  }

  // ---------- Slots ----------

  /** The array slot of the `k`-th element ever pushed. */
  function Slot(k: nat, capacity: nat): (s: nat)
    requires capacity > 0
    ensures s < capacity
  {
    k % WORD % capacity
  }

  /** Wrapping counters number the slots like true counters would. */
  predicate Aligned(capacity: nat, count: nat) {
    capacity > 0 ==> WORD % capacity == 0 || count < WORD
  }

  lemma Products(c: nat, d: int, e: int)
    ensures d >= 1 ==> c * d >= c
    ensures d <= -1 ==> c * d <= 0 - c
    ensures d == 0 ==> c * d == 0
    ensures c * (d + e) == c * d + c * e
    ensures c * (d - e) == c * d - c * e
  {
  }

  lemma Associate(a: nat, b: nat, c: nat)
    ensures (a * b) * c == a * (b * c)
  {
  }

  lemma ModUnique(k: nat, c: nat, q: nat, r: nat)
    requires c > 0 && r < c && k == c * q + r
    ensures k % c == r
  {
    assert c * (k / c) + k % c == k;
    Products(c, k / c, q);
    Products(c, k / c - q, 0);
  }

  lemma DividesMod(k: nat, n: nat, c: nat)
    requires c > 0 && n > 0 && n % c == 0
    ensures k % n % c == k % c
  {
    var a, b, d := n / c, k / n, k % n / c;
    assert n == c * a;
    Associate(c, a, b);
    Products(c, a * b, d);
    ModUnique(k, c, a * b + d, k % n % c);
  }

  lemma SlotIs(k: nat, c: nat)
    requires c > 0 && Aligned(c, k)
    ensures Slot(k, c) == k % c
  {
    if WORD % c == 0 {
      DividesMod(k, WORD, c);
    }
  }

  /** Elements less than a capacity apart do not share a slot. */
  lemma SlotsApart(i: nat, j: nat, c: nat)
    requires c > 0 && i < j < i + c && Aligned(c, j)
    ensures Slot(i, c) != Slot(j, c)
  {
    hide Slot;
    SlotIs(i, c);
    SlotIs(j, c);
    ModApart(i, j, c);
  }

  lemma ModApart(i: nat, j: nat, c: nat)
    requires c > 0 && i < j < i + c
    ensures i % c != j % c
  {
    assert c * (j / c) + j % c == j && c * (i / c) + i % c == i;
    Products(c, j / c, i / c);
    Products(c, j / c - i / c, 0);
  }

  // ---------- The invariant ----------

  ghost predicate Counters<T>(q: Queue<T>) {
    && |q.data| == q.capacity < WORD
    && q.pushedCount == |q.pushed| % WORD && q.poppedCount == |q.popped| % WORD
    && |q.popped| <= |q.pushed| <= |q.popped| + q.capacity
  }

  ghost predicate Contents<T>(q: Queue<T>)
    requires |q.data| == q.capacity
  {
    && q.popped <= q.pushed
    && (q.capacity > 0 ==>
          forall k :: |q.popped| <= k < |q.pushed| ==> q.data[Slot(k, q.capacity)] == q.pushed[k])
  }

  ghost predicate Threads<T>(q: Queue<T>)
    requires |q.data| == q.capacity
  {
    && (q.producer != Outside ==> 0 < q.capacity && |q.pushed| < |q.popped| + q.capacity)
    && (q.producer.Written? ==> q.data[Slot(|q.pushed|, q.capacity)] == q.producer.value)
    && (q.consumer != Away ==> 0 < q.capacity && |q.popped| < |q.pushed|)
    && (q.consumer.HasRead? ==> q.consumer.value == q.pushed[|q.popped|])
  }

  ghost predicate Inv<T>(q: Queue<T>) {
    Counters(q) && Contents(q) && Threads(q)
  }

  lemma FullMeansFull<T>(q: Queue<T>)
    requires Counters(q)
    ensures IsFull(q) <==> |q.pushed| == |q.popped| + q.capacity
    ensures IsEmpty(q) <==> |q.pushed| == |q.popped|
    ensures Size(q) == |q.pushed| - |q.popped|
  {
  }

  lemma {:induction false} StepKeepsInv<T>(q: Queue<T>, a: Action<T>)
    requires Inv(q) && Aligned(q.capacity, |q.pushed|)
    ensures Inv(Step(q, a))
  {
    FullMeansFull(q);
    match a {
      case FinishWrite => WriteKeepsInv(q);
      case Publish => PublishKeepsInv(q);
      case Release => ReleaseKeepsInv(q);
      case _ =>
    }
  }

  lemma NextCount(n: nat)
    ensures (n % WORD + 1) % WORD == (n + 1) % WORD
  {
  }

  lemma WriteKeepsInv<T>(q: Queue<T>)
    requires Inv(q) && Aligned(q.capacity, |q.pushed|)
    ensures Inv(Step(q, FinishWrite))
  {
    if q.producer.Writing? {
      var r := Step(q, FinishWrite);
      forall k | |q.popped| <= k < |q.pushed|
        ensures r.data[Slot(k, q.capacity)] == q.pushed[k]
      {
        SlotsApart(k, |q.pushed|, q.capacity);
      }
    }
  }

  lemma PublishKeepsInv<T>(q: Queue<T>)
    requires Inv(q)
    ensures Inv(Step(q, Publish))
  {
    hide Slot;
    if q.producer.Written? {
      var r := Step(q, Publish);
      NextCount(|q.pushed|);
      assert r.popped <= r.pushed;
      assert forall k :: |r.popped| <= k < |q.pushed| ==> r.pushed[k] == q.pushed[k];
    }
  }

  lemma ReleaseKeepsInv<T>(q: Queue<T>)
    requires Inv(q)
    ensures Inv(Step(q, Release))
  {
    hide Slot;
    if q.consumer.HasRead? && q.consumer.pop {
      var r := Step(q, Release);
      NextCount(|q.popped|);
      assert r.popped == q.pushed[..|q.popped| + 1];
    }
  }

  lemma {:induction false} RunGrows<T>(q: Queue<T>, actions: seq<Action<T>>)
    ensures Run(q, actions).capacity == q.capacity && |q.pushed| <= |Run(q, actions).pushed|
  {
    if actions != [] {
      RunGrows(q, actions[..|actions| - 1]);
    }
  }

  lemma {:induction false} RunKeepsInv<T>(q: Queue<T>, actions: seq<Action<T>>)
    requires Inv(q) && Aligned(q.capacity, |Run(q, actions).pushed|)
    ensures Inv(Run(q, actions))
  {
    if actions != [] {
      var before := Run(q, actions[..|actions| - 1]);
      RunGrows(q, actions[..|actions| - 1]);
      RunGrows(before, [actions[|actions| - 1]]);
      assert Run(before, [actions[|actions| - 1]]) == Step(before, actions[|actions| - 1]) by {
        assert [actions[|actions| - 1]][..0] == [];
      }
      RunKeepsInv(q, actions[..|actions| - 1]);
      StepKeepsInv(before, actions[|actions| - 1]);
    }
  }

  /** Under every interleaving: what was popped is what was pushed, in order; the occupancy stays
      within the capacity and Size reports it; and the slot being written is not the one being
      read.  This holds for runs of any length when the capacity divides 2^32, and otherwise up to
      2^32 pushes. */
  lemma SafeRun<T>(data: seq<T>, actions: seq<Action<T>>)
    requires |data| < WORD && Aligned(|data|, |Run(Initial(data), actions).pushed|)
    ensures var q := Run(Initial(data), actions);
            && q.popped <= q.pushed
            && 0 <= |q.pushed| - |q.popped| <= q.capacity == |data|
            && Size(q) == |q.pushed| - |q.popped|
            && (q.producer.Writing? && q.consumer.Reading? ==>
                  q.capacity > 0 && q.pushedCount % q.capacity != q.poppedCount % q.capacity)
            && (q.consumer.HasRead? ==> |q.popped| < |q.pushed| && q.consumer.value == q.pushed[|q.popped|])
  {
    var q := Run(Initial(data), actions);
    RunGrows(Initial(data), actions);
    RunKeepsInv(Initial(data), actions);
    FullMeansFull(q);
    if q.producer.Writing? && q.consumer.Reading? {
      SlotsApart(|q.popped|, |q.pushed|, q.capacity);
    }
  }

  // ---------- Admission, whatever the other thread is doing ----------

  /** A producer that has passed the test, with the three steps that are left. */
  function PushRest<T>(): seq<Action<T>> {
    [StartWrite, FinishWrite, Publish]
  }

  /** Wherever the consumer is: a push is admitted exactly when there is room, and then goes through and
      puts the value last. */
  lemma PushAdmitted<T>(q: Queue<T>, value: T)
    requires Inv(q) && q.producer == Outside
    ensures var r := Step(q, BeginPush(value));
            if |q.pushed| - |q.popped| < q.capacity then
              && r == q.(producer := Admitted(value))
              && Run(r, PushRest()).pushed == q.pushed + [value] && Run(r, PushRest()).popped == q.popped
              && Run(r, PushRest()).producer == Outside && Run(r, PushRest()).consumer == q.consumer
            else r == q
  {
    FullMeansFull(q);
    var r := Step(q, BeginPush(value));
    if |q.pushed| - |q.popped| < q.capacity {
      RunThree(r, StartWrite, FinishWrite, Publish);
    }
  }

  /** Wherever the producer is: a read is admitted exactly when there is something, and PopFront then
      takes the oldest value, while PeekFront leaves it. */
  lemma FrontAdmitted<T>(q: Queue<T>, pop: bool)
    requires Inv(q) && q.consumer == Away && Aligned(q.capacity, |q.pushed|)
    ensures var r := Step(q, BeginFront(pop));
            if q.pushed != q.popped then
              var s := Run(r, [StartRead, FinishRead, Release]);
              && r == q.(consumer := Cleared(pop)) && |q.popped| < |q.pushed|
              && s.popped == (if pop then q.popped + [q.pushed[|q.popped|]] else q.popped)
              && s.pushed == q.pushed && s.consumer == Away && s.producer == q.producer
            else r == q
  {
    FullMeansFull(q);
    var r := Step(q, BeginFront(pop));
    if q.pushed != q.popped {
      assert |q.popped| < |q.pushed|;
      RunThree(r, StartRead, FinishRead, Release);
    }
  }

  lemma RunThree<T>(q: Queue<T>, a: Action<T>, b: Action<T>, c: Action<T>)
    ensures Run(q, [a, b, c]) == Step(Step(Step(q, a), b), c)
  {
    hide Step;
    assert [a, b, c][..2] == [a, b] && [a, b][..1] == [a] && [a][..0] == [];
    assert Run(q, [a]) == Step(q, a);
    assert Run(q, [a, b]) == Step(Run(q, [a]), b);
  }

  // ---------- Whole calls, and why the capacity matters ----------

  function PushSteps<T>(value: T): seq<Action<T>> {
    [BeginPush(value), StartWrite, FinishWrite, Publish]
  }

  function FrontSteps<T>(pop: bool): seq<Action<T>> {
    [BeginFront(pop), StartRead, FinishRead, Release]
  }

  lemma {:induction false} RunConcat<T>(q: Queue<T>, a: seq<Action<T>>, b: seq<Action<T>>)
    ensures Run(q, a + b) == Run(Run(q, a), b)
  {
    hide Step;
    if b == [] {
      assert a + b == a;
    } else {
      RunConcat(q, a, b[..|b| - 1]);
      assert (a + b)[..|a + b| - 1] == a + b[..|b| - 1];
    }
  }

  lemma RunFour<T>(q: Queue<T>, a: Action<T>, b: Action<T>, c: Action<T>, d: Action<T>)
    ensures Run(q, [a, b, c, d]) == Step(Step(Step(Step(q, a), b), c), d)
  {
    hide Step;
    assert [a, b, c, d][..3] == [a, b, c];
    assert [a, b, c][..2] == [a, b];
    assert [a, b][..1] == [a];
    assert [a][..0] == [];
    assert Run(q, [a]) == Step(q, a);
    assert Run(q, [a, b]) == Step(Run(q, [a]), b);
    assert Run(q, [a, b, c]) == Step(Run(q, [a, b]), c);
  }

  ghost predicate Quiet<T>(q: Queue<T>) {
    Counters(q) && q.producer == Outside && q.consumer == Away
  }

  function Pushed<T>(q: Queue<T>, value: T): Queue<T>
    requires 0 < q.capacity == |q.data|
  {
    q.(data := q.data[Slot(|q.pushed|, q.capacity) := value],
       pushedCount := (|q.pushed| + 1) % WORD, pushed := q.pushed + [value])
  }

  function Popped<T>(q: Queue<T>): Queue<T>
    requires 0 < q.capacity == |q.data|
  {
    q.(poppedCount := (|q.popped| + 1) % WORD, popped := q.popped + [q.data[Slot(|q.popped|, q.capacity)]])
  }

  /** PushBack, undisturbed: nothing when full, one element more otherwise. */
  lemma PushEffect<T>(q: Queue<T>, value: T)
    requires Quiet(q)
    ensures Run(q, PushSteps(value)) == if |q.pushed| == |q.popped| + q.capacity then q else Pushed(q, value)
  {
    hide Run, IsFull, Slot;
    FullMeansFull(q);
    RunFour(q, BeginPush(value), StartWrite, FinishWrite, Publish);
    if |q.pushed| < |q.popped| + q.capacity {
      assert Step(Step(q, BeginPush(value)), StartWrite) == q.(producer := Writing(value));
      WriteAndPublish(q, value);
    }
  }

  lemma WriteAndPublish<T>(q: Queue<T>, value: T)
    requires Quiet(q) && q.capacity > 0
    ensures Step(Step(q.(producer := Writing(value)), FinishWrite), Publish) == Pushed(q, value)
  {
    var slot := Slot(|q.pushed|, q.capacity);
    assert q.pushedCount % q.capacity == slot;
    hide Slot;
    NextCount(|q.pushed|);
    assert Step(q.(producer := Writing(value)), FinishWrite) ==
           q.(producer := Written(value), data := q.data[slot := value]);
  }

  /** PopFront and PeekFront, undisturbed. */
  lemma FrontEffect<T>(q: Queue<T>, pop: bool)
    requires Quiet(q)
    ensures Run(q, FrontSteps(pop)) == if |q.pushed| == |q.popped| || !pop then q else Popped(q)
  {
    hide Run, IsEmpty;
    FullMeansFull(q);
    RunFour(q, BeginFront(pop), StartRead, FinishRead, Release);
    NextCount(|q.popped|);
  }

  /** Pushing and popping in turn brings both counters to any value. */
  lemma {:induction false} ReachCount<T>(data: seq<T>, value: T, n: nat) returns (actions: seq<Action<T>>)
    requires 0 < |data| < WORD
    ensures var q := Run(Initial(data), actions);
            Quiet(q) && q.capacity == |data| && |q.pushed| == |q.popped| == n
  {
    if n == 0 {
      actions := [];
    } else {
      var before := ReachCount(data, value, n - 1);
      hide Run, Step;
      var q := Run(Initial(data), before);
      PushEffect(q, value);
      FrontEffect(Pushed(q, value), true);
      RunConcat(Initial(data), before, PushSteps(value));
      RunConcat(Initial(data), before + PushSteps(value), FrontSteps(true));
      actions := before + PushSteps(value) + FrontSteps(true);
    }
  }

  lemma {:induction false} PushMany<T>(q: Queue<T>, value: T, n: nat) returns (actions: seq<Action<T>>)
    requires Quiet(q) && |q.pushed| + n <= |q.popped| + q.capacity
    ensures var r := Run(q, actions);
            Quiet(r) && r.capacity == q.capacity && r.popped == q.popped &&
            |r.pushed| == |q.pushed| + n && q.pushed <= r.pushed
  {
    if n == 0 {
      actions := [];
    } else {
      var before := PushMany(q, value, n - 1);
      hide Run, Step;
      PushEffect(Run(q, before), value);
      RunConcat(q, before, PushSteps(value));
      actions := before + PushSteps(value);
    }
  }

  /** When the capacity does not divide 2^32, some run delivers a value that was not the one pushed
      in that place: after the counter wraps, an unread slot is overwritten. */
  lemma UnsafeWithoutDivisor<T>(data: seq<T>, a: T, b: T) returns (actions: seq<Action<T>>)
    requires 0 < |data| < WORD && WORD % |data| != 0 && a != b
    ensures var q := Run(Initial(data), actions);
            !(q.popped <= q.pushed)
  {
    hide Run, Step;
    var c := |data|;
    var r := WORD % c;
    var start := Initial(data);
    var idle := ReachCount(data, a, WORD - r);
    var q0 := Run(start, idle);
    PushEffect(q0, a);
    var q1 := Pushed(q0, a);
    var fill := PushMany(q1, a, r - 1);
    var q2 := Run(q1, fill);
    PushEffect(q2, b);
    var q3 := Pushed(q2, b);
    FrontEffect(q3, true);
    var q4 := Popped(q3);
    actions := idle + PushSteps(a) + fill + PushSteps(b) + FrontSteps(true);
    RunConcat(start, idle, PushSteps(a));
    RunConcat(start, idle + PushSteps(a), fill);
    RunConcat(start, idle + PushSteps(a) + fill, PushSteps(b));
    RunConcat(start, idle + PushSteps(a) + fill + PushSteps(b), FrontSteps(true));
    assert Run(start, actions) == q4;
    SharedSlot(c);
    assert q4.popped[WORD - r] == b;
    assert q1.pushed[WORD - r] == a;
    assert q4.pushed[WORD - r] == a;
  }

  lemma SharedSlot(c: nat)
    requires 0 < c < WORD && WORD % c != 0
    ensures Slot(WORD, c) == 0 && Slot(WORD - WORD % c, c) == 0
  {
    ModUnique(WORD - WORD % c, c, WORD / c, 0);
  }

  lemma PushSound<T>(q: Queue<T>, value: T)
    requires Quiet(q)
    ensures var r := Run(q, PushSteps(value)); Inv(q) && Aligned(q.capacity, |r.pushed|) ==> Inv(r)
  {
    if Inv(q) && Aligned(q.capacity, |Run(q, PushSteps(value)).pushed|) {
      RunKeepsInv(q, PushSteps(value));
    }
  }

  lemma FrontSound<T>(q: Queue<T>)
    requires Quiet(q)
    ensures Inv(q) && Aligned(q.capacity, |q.pushed|) ==> Inv(Run(q, FrontSteps(true)))
  {
    if Inv(q) && Aligned(q.capacity, |q.pushed|) {
      FrontEffect(q, true);
      RunKeepsInv(q, FrontSteps(true));
    }
  }

  // ---------- The class ----------

  /** The object, used by one thread at a time; each call is its atomic steps in a row. */
  class FixedSizeLockFreeQueue<T(0)> {
    var pushedCount: nat
    var poppedCount: nat
    var capacity: nat
    var data: array<T>
    ghost var pushed: seq<T>
    ghost var popped: seq<T>

    ghost function View(): Queue<T>
      reads this, data
    {
      Queue(capacity, pushedCount, poppedCount, data[..], Outside, Away, pushed, popped)
    }

    ghost predicate Valid()
      reads this, data
    {
      Counters(View())
    }

    /** The slots hold what was pushed, and the slot numbers are in step with the counters: so it
        stays if the capacity divides 2^32, and otherwise for the first 2^32 pushes. */
    ghost predicate Sound()
      requires Valid()
      reads this, data
    {
      Inv(View()) && Aligned(capacity, |pushed|)
    }

    /** What is in the queue, oldest first. */
    ghost function Items(): seq<T>
      requires Valid()
      reads this, data
    {
      pushed[|popped|..]
    }

    constructor (capacity: nat)
      requires capacity < WORD
      ensures Valid() && Sound() && Items() == [] && this.capacity == capacity && fresh(data)
    {
      pushedCount, poppedCount, this.capacity := 0, 0, capacity;
      data := new T[capacity];
      pushed, popped := [], [];
    }

    /** PushBack: refused exactly when full (or without capacity); otherwise the value is last. */
    method PushBack(value: T) returns (ok: bool)
      requires Valid()
      modifies this, data
      ensures Valid() && data == old(data) && capacity == old(capacity)
      ensures View() == Run(old(View()), PushSteps(value))
      ensures ok <==> |old(Items())| < capacity
      ensures Items() == if ok then old(Items()) + [value] else old(Items())
      ensures old(Sound()) && Aligned(capacity, |pushed|) ==> Sound()
    {
      hide Run, Step, Inv;
      ghost var q := View();
      FullMeansFull(q);
      PushEffect(q, value);
      PushSound(q, value);
      if capacity == 0 || pushedCount == (poppedCount + capacity) % WORD {
        return false;
      }
      data[pushedCount % capacity] := value;
      pushedCount := (pushedCount + 1) % WORD;
      NextCount(|pushed|);
      pushed := pushed + [value];
      assert View() == Pushed(q, value);
      return true;
    }

    /** PeekFront: the oldest value, and the queue as it was. */
    method PeekFront() returns (ok: bool, value: T)
      requires Valid()
      ensures ok <==> Items() != []
      ensures ok ==> 0 < capacity == data.Length && value == data[Slot(|popped|, capacity)]
      ensures ok && Sound() ==> value == Items()[0]
    {
      FullMeansFull(View());
      value := *;
      if capacity == 0 || pushedCount == poppedCount {
        return false, value;
      }
      return true, data[poppedCount % capacity];
    }

    /** PopFront: the oldest value leaves. */
    method PopFront() returns (ok: bool, value: T)
      requires Valid()
      modifies this
      ensures Valid() && data == old(data) && capacity == old(capacity)
      ensures View() == Run(old(View()), FrontSteps(true))
      ensures ok <==> old(Items()) != []
      ensures Items() == if ok then old(Items())[1..] else old(Items())
      ensures old(Sound()) ==> Sound() && (ok ==> value == old(Items())[0])
    {
      hide Run, Step, Inv;
      ghost var q := View();
      FrontEffect(q, true);
      FrontSound(q);
      ok, value := PeekFront();
      if ok {
        poppedCount := (poppedCount + 1) % WORD;
        NextCount(|popped|);
        popped := popped + [value];
        assert View() == Popped(q);
      }
    }

    method ClearAndResizeUnsafe(newCapacity: nat)
      requires newCapacity < WORD
      modifies this
      ensures Valid() && Sound() && Items() == [] && capacity == newCapacity && fresh(data)
    {
      capacity := newCapacity;
      data := new T[newCapacity];
      pushedCount, poppedCount := 0, 0;
      pushed, popped := [], [];
    }
  }
}
