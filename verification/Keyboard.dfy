/** The keyboard ring: filled by interrupts at any moment, emptied by the main loop step by step. */
module Keyboard {

  const SLOTS: nat := 32

  /** Where the main loop stands inside keyboard_pop_char. */
  datatype Phase = Idle | Tested | Fetched(c: char)

  /** What happens next: a key interrupt, or the next step of the main loop. */
  datatype Event = Key(c: char) | PopStep

  /** The slot `k` places after `t`. */
  function Slot(t: nat, k: nat): (r: nat)
    ensures r < SLOTS
  {
    (t + k) % SLOTS
  }

  /** The slots from the tail up to the head hold the waiting characters. */
  ghost predicate Holds(buf: seq<char>, head: nat, tail: nat, waiting: seq<char>) {
    && |buf| == SLOTS && tail < SLOTS && |waiting| < SLOTS && head == Slot(tail, |waiting|)
    && forall k :: 0 <= k < |waiting| ==> buf[Slot(tail, k)] == waiting[k]
  }

  /** Head and tail meet exactly when nothing waits; head comes right before tail exactly when 31 characters wait. */
  lemma HeadAndTail(tail: nat, n: nat)
    requires tail < SLOTS && n < SLOTS
    ensures Slot(tail, n) == tail <==> n == 0
    ensures Slot(Slot(tail, n), 1) == tail <==> n == SLOTS - 1
    ensures Slot(Slot(tail, n), 1) == Slot(tail, n + 1)
  {
    hide Slot;
    SlotIs(tail, n);
    SlotIs(tail, n + 1);
    SlotIs(Slot(tail, n), 1);
  }

  /** Wrap-around, spelled out. */
  lemma SlotIs(t: nat, k: nat)
    requires t < SLOTS && k <= SLOTS
    ensures Slot(t, k) == if t + k < SLOTS then t + k else t + k - SLOTS
  {
  }

  lemma SlotsApart(tail: nat, k: nat, n: nat)
    requires tail < SLOTS && k < n < SLOTS
    ensures Slot(tail, k) != Slot(tail, n)
  {
    hide Slot;
    SlotIs(tail, k);
    SlotIs(tail, n);
  }

  lemma NextSlot(tail: nat, k: nat)
    requires tail < SLOTS && k < SLOTS
    ensures Slot(Slot(tail, 1), k) == Slot(tail, k + 1) && Slot(tail, 0) == tail
  {
    hide Slot;
    SlotIs(tail, 0);
    SlotIs(tail, 1);
    SlotIs(tail, k + 1);
    SlotIs(Slot(tail, 1), k);
  }

  lemma Shape(buf: seq<char>, head: nat, tail: nat, waiting: seq<char>)
    requires Holds(buf, head, tail, waiting)
    ensures |buf| == SLOTS && tail < SLOTS && (head == tail <==> waiting == [])
  {
    hide Slot;
    HeadAndTail(tail, |waiting|);
  }

  lemma Pushed(buf: seq<char>, head: nat, tail: nat, waiting: seq<char>, c: char)
    requires Holds(buf, head, tail, waiting) && |waiting| < SLOTS - 1
    ensures Holds(buf[head := c], Slot(head, 1), tail, waiting + [c])
  {
    hide Slot;
    HeadAndTail(tail, |waiting|);
    forall k | 0 <= k < |waiting| ensures Slot(tail, k) != head {
      SlotsApart(tail, k, |waiting|);
    }
  }

  lemma Popped(buf: seq<char>, head: nat, tail: nat, waiting: seq<char>)
    requires Holds(buf, head, tail, waiting) && waiting != []
    ensures buf[tail] == waiting[0] && Holds(buf, head, Slot(tail, 1), waiting[1..])
  {
    hide Slot;
    NextSlot(tail, |waiting| - 1);
    forall k | 0 <= k < |waiting| - 1 ensures buf[Slot(Slot(tail, 1), k)] == waiting[k + 1] {
      NextSlot(tail, k);
    }
  }

  /** The results other than 0. */
  function Characters(s: seq<char>): seq<char> {
    if s == [] then [] else
    Characters(s[..|s| - 1]) + if s[|s| - 1] == '\0' then [] else [s[|s| - 1]]
  }

  lemma CharactersAppend(s: seq<char>, c: char)
    ensures Characters(s + [c]) == Characters(s) + if c == '\0' then [] else [c]
  {
    assert (s + [c])[..|s|] == s;
  }

  /* ---- the queue that the ring stands for ---- */

  /** The characters that wait, all that were accepted, all results returned, and where the main loop stands. */
  datatype Queue = Queue(waiting: seq<char>, accepted: seq<char>, returned: seq<char>, phase: Phase) {
    ghost predicate Valid() {
      && |waiting| < SLOTS && '\0' !in waiting && accepted == Characters(returned) + waiting
      && (phase != Idle ==> waiting != []) && (phase.Fetched? ==> phase.c == waiting[0])
    }
  }

  /** A key other than 0 joins the queue unless 31 characters wait; a step of the main loop tests, fetches or returns. */
  function Step(q: Queue, e: Event): Queue {
    match e
    case Key(c) =>
      if c == '\0' || |q.waiting| >= SLOTS - 1 then q
      else q.(waiting := q.waiting + [c], accepted := q.accepted + [c])
    case PopStep =>
      match q.phase
      case Idle => if q.waiting == [] then q.(returned := q.returned + ['\0']) else q.(phase := Tested)
      case Tested => if q.waiting == [] then q else q.(phase := Fetched(q.waiting[0]))
      case Fetched(c) => q.(returned := q.returned + [c], waiting := if q.waiting == [] then [] else q.waiting[1..], phase := Idle)
  }

  /** A pop with nothing waiting returns 0 at once and changes nothing else. */
  lemma EmptyPop(q: Queue)
    requires q.phase == Idle && q.waiting == []
    ensures Step(q, PopStep) == q.(returned := q.returned + ['\0'])
  {
  }

  /** A key is accepted exactly if it is not 0 and fewer than 31 characters wait. */
  lemma KeyJoins(q: Queue, c: char)
    ensures Step(q, Key(c)).waiting == q.waiting + [c] <==> c != '\0' && |q.waiting| < 31
  {
  }

  function After(q: Queue, events: seq<Event>): Queue {
    if events == [] then q else Step(After(q, events[..|events| - 1]), events[|events| - 1])
  }

  lemma AfterMore(q: Queue, events: seq<Event>, e: Event)
    ensures After(q, events + [e]) == Step(After(q, events), e)
  {
    assert (events + [e])[..|events|] == events;
  }

  lemma StepKeeps(q: Queue, e: Event)
    requires q.Valid()
    ensures Step(q, e).Valid()
  {
    hide Characters;
    if e.PopStep? {
      match q.phase
      case Idle => CharactersAppend(q.returned, '\0');
      case Tested =>
      case Fetched(c) =>
        CharactersAppend(q.returned, c);
        assert q.waiting == [c] + q.waiting[1..];
    }
  }

  /** First in, first out: what was returned and what waits is always what was accepted, in that order. */
  lemma {:induction false} OrderKept(q: Queue, events: seq<Event>)
    requires q.Valid()
    ensures After(q, events).Valid()
  {
    hide Step, Queue.Valid;
    if events != [] {
      OrderKept(q, events[..|events| - 1]);
      StepKeeps(After(q, events[..|events| - 1]), events[|events| - 1]);
    }
  }

  /** The keys among the events that came while fewer than 31 characters waited. */
  function Admitted(q: Queue, events: seq<Event>): seq<char> {
    if events == [] then [] else
    var m := |events| - 1;
    Admitted(q, events[..m]) +
    if events[m].Key? && events[m].c != '\0' && |After(q, events[..m]).waiting| < SLOTS - 1 then [events[m].c] else []
  }

  /** Nothing is lost and nothing invented: exactly the keys that found room were accepted. */
  lemma {:induction false} AcceptedExactly(q: Queue, events: seq<Event>)
    ensures After(q, events).accepted == q.accepted + Admitted(q, events)
  {
    if events != [] {
      AcceptedExactly(q, events[..|events| - 1]);
    }
  }

  /** With fewer keys than places, every key is accepted. */
  lemma {:induction false} FewKeys(q: Queue, events: seq<Event>)
    requires |q.waiting| + |events| < SLOTS && forall i :: 0 <= i < |events| ==> events[i] != Key('\0')
    ensures Admitted(q, events) == Keys(events) && |After(q, events).waiting| <= |q.waiting| + |events|
  {
    if events != [] {
      FewKeys(q, events[..|events| - 1]);
    }
  }

  function Keys(events: seq<Event>): seq<char> {
    if events == [] then [] else
    Keys(events[..|events| - 1]) + if events[|events| - 1].Key? then [events[|events| - 1].c] else []
  }

  /** Result `j` was returned by event `i`: a test that found nothing waiting, or the last step of a pop. */
  ghost predicate ReturnedBy(q: Queue, events: seq<Event>, j: nat, i: nat)
    requires i < |events| && j < |After(q, events).returned|
  {
    var p := After(q, events[..i]);
    && events[i] == PopStep && |p.returned| == j
    && if After(q, events).returned[j] == '\0' then p.phase == Idle && p.waiting == []
       else p.phase.Fetched? && p.waiting != [] && After(q, events).returned[j] == p.waiting[0]
  }

  /** A result of 0 only means that nothing waited at the test; any other result is the oldest character. */
  lemma {:induction false} ResultsMean(q: Queue, events: seq<Event>, j: nat) returns (i: nat)
    requires q.Valid() && |q.returned| <= j < |After(q, events).returned|
    ensures i < |events| && ReturnedBy(q, events, j, i)
  {
    hide Queue.Valid;
    i := 0;
    if events != [] {
      var m := |events| - 1;
      var p := After(q, events[..m]);
      OrderKept(q, events[..m]);
      if j < |p.returned| {
        i := ResultsMean(q, events[..m], j);
        assert events[..m][..i] == events[..i];
        Grows(p, events[m]);
      } else {
        i := m;
        LastResult(p, events[m]);
      }
    }
  }

  lemma Grows(p: Queue, e: Event)
    ensures |p.returned| <= |Step(p, e).returned| <= |p.returned| + 1 && Step(p, e).returned[..|p.returned|] == p.returned
  {
  }

  lemma LastResult(p: Queue, e: Event)
    requires p.Valid() && |Step(p, e).returned| > |p.returned|
    ensures e == PopStep && |Step(p, e).returned| == |p.returned| + 1
    ensures var r := Step(p, e).returned[|p.returned|];
            if r == '\0' then p.phase == Idle && p.waiting == [] else p.phase.Fetched? && p.waiting != [] && r == p.waiting[0]
  {
  }

  /** The number of steps of the main loop among the events. */
  function Pops(events: seq<Event>): nat {
    if events == [] then 0 else Pops(events[..|events| - 1]) + if events[|events| - 1].PopStep? then 1 else 0
  }

  /** Where the main loop stands after `n` steps of a pop that found something waiting. */
  ghost predicate PoppedBy(q: Queue, p: Queue, n: nat)
    requires q.waiting != []
  {
    if n < 3 then
      && p.returned == q.returned && q.waiting <= p.waiting
      && p.phase == if n == 0 then Idle else if n == 1 then Tested else Fetched(q.waiting[0])
    else p.returned == q.returned + [q.waiting[0]] && q.waiting[1..] <= p.waiting && p.phase == Idle
  }

  /** Whatever keys come in between, the three steps of a pop deliver the oldest character and leave the others in place. */
  lemma {:induction false} PopDelivers(q: Queue, events: seq<Event>)
    requires q.phase == Idle && q.waiting != [] && Pops(events) <= 3
    ensures PoppedBy(q, After(q, events), Pops(events))
  {
    if events != [] {
      PopDelivers(q, events[..|events| - 1]);
      DeliversStep(q, After(q, events[..|events| - 1]), Pops(events[..|events| - 1]), events[|events| - 1]);
    }
  }

  lemma DeliversStep(q: Queue, p: Queue, n: nat, e: Event)
    requires q.waiting != [] && PoppedBy(q, p, n) && (e.PopStep? ==> n < 3) && n <= 3
    ensures PoppedBy(q, Step(p, e), if e.PopStep? then n + 1 else n)
  {
  }

  class Ring {
    const buffer: array<char>
    var head: nat
    var tail: nat
    var phase: Phase
    /** The queue that the ring stands for. */
    ghost var queue: Queue

    constructor ()
      ensures Valid() && queue == Queue([], [], [], Idle) && fresh(buffer)
    {
      buffer := new char[SLOTS](_ => '\0');
      head, tail, phase := 0, 0, Idle;
      queue := Queue([], [], [], Idle);
    }

    ghost predicate Valid()
      reads this, buffer
    {
      Holds(buffer[..], head, tail, queue.waiting) && phase == queue.phase && queue.Valid()
    }

    /** keyboard_push_char, which the interrupt handler calls for characters other than 0: dropped if 31 wait. */
    method Push(c: char)
      requires Valid() && c != '\0'
      modifies `head, `queue, buffer
      ensures Valid() && queue == Step(old(queue), Key(c))
    {
      hide Slot;
      var next := Slot(head, 1);
      HeadAndTail(tail, |queue.waiting|);
      if next != tail {
        Pushed(buffer[..], head, tail, queue.waiting, c);
        buffer[head] := c;
        head := next;
      }
      queue := Step(queue, Key(c));
    }

    /** The next step of keyboard_pop_char: the test, the fetch, or the advance and return of `result`. */
    method Pop() returns (done: bool, result: char)
      requires Valid()
      modifies `tail, `phase, `queue
      ensures Valid() && queue == Step(old(queue), PopStep)
      ensures queue.returned == if done then old(queue.returned) + [result] else old(queue.returned)
    {
      hide Slot, Holds, Characters;
      ghost var q := queue;
      Shape(buffer[..], head, tail, q.waiting);
      if q.waiting != [] {
        Popped(buffer[..], head, tail, q.waiting);
      }
      StepKeeps(q, PopStep);
      done, result := false, '\0';
      match phase {
        case Idle =>
          if head == tail {
            done := true;
          } else {
            phase := Tested;
          }
        case Tested =>
          phase := Fetched(buffer[tail]);
        case Fetched(c) =>
          tail := Slot(tail, 1);
          phase, done, result := Idle, true, c;
      }
      queue := Step(q, PopStep);
    }

    /** Any interleaving of interrupts with the steps of the main loop is the same run of the queue. */
    method Run(events: seq<Event>)
      requires Valid()
      modifies this, buffer
      ensures Valid() && queue == After(old(queue), events)
      ensures queue.accepted == old(queue.accepted) + Admitted(old(queue), events)
    {
      hide Queue.Valid, Step, Admitted;
      assert events[..0] == [];
      for i := 0 to |events|
        invariant Valid() && queue == After(old(queue), events[..i])
      {
        assert events[..i + 1] == events[..i] + [events[i]];
        AfterMore(old(queue), events[..i], events[i]);
        match events[i] {
          case Key(c) =>
            if c != '\0' {
              Push(c);
            } else {
              NoKey(queue);
            }
          case PopStep =>
            var done, result := Pop();
        }
      }
      assert events[..|events|] == events;
      AcceptedExactly(old(queue), events);
    }
  }

  lemma NoKey(q: Queue)
    ensures Step(q, Key('\0')) == q
  {
  }
}
