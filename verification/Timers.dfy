/** lib/timer_list.c and lib/timer.c on linked nodes. The clock interrupt may come before
    any statement that runs with the interrupt flag set: Interrupts() stands for it. */
module Timers {
  import opened Words
  import opened TimerModel

  class Timer {
    var initialCounter: u32
    var counter: u32
    var inList: bool
    var prev: Timer?
    var next: Timer?

    constructor () {
      initialCounter, counter, inList, prev, next := 0, 0, false, null, null;
    }
  }

  datatype Call =
    | CallStart(tmr: Timer, timeout: u32)
    | CallStop(tmr: Timer)
    | CallResume(tmr: Timer)
    | CallRestart(tmr: Timer)

  ghost const EMPTY: State<Timer> := State([], map[])

  ghost function NodeAt(s: seq<Timer>, i: int): Timer? {
    if 0 <= i < |s| then s[i] else null
  }

  // s is a finite, acyclic list from head, prev inverse to next.
  ghost predicate Chain(head: Timer?, s: seq<Timer>)
    reads s
  {
    && Distinct(s) && head == NodeAt(s, 0)
    && (forall i {:trigger s[i].next} | 0 <= i < |s| :: s[i].next == NodeAt(s, i + 1))
    && (forall i {:trigger s[i].prev} | 0 <= i < |s| :: s[i].prev == NodeAt(s, i - 1))
  }

  // A list whose links bypass node k is a list without it.
  lemma Bypassed(head: Timer?, s: seq<Timer>, k: nat)
    requires Distinct(s) && k < |s| && head == (if k == 0 then NodeAt(s, 1) else s[0])
    requires forall i {:trigger s[i].next} | 0 <= i < |s| && i != k ::
      s[i].next == if i == k - 1 then NodeAt(s, k + 1) else NodeAt(s, i + 1)
    requires forall i {:trigger s[i].prev} | 0 <= i < |s| && i != k ::
      s[i].prev == if i == k + 1 then NodeAt(s, k - 1) else NodeAt(s, i - 1)
    ensures Chain(head, s[..k] + s[k + 1..])
  {
  }

  // A node with null prev, linked in front of a list, heads a list.
  lemma Prepended(tmr: Timer, s: seq<Timer>)
    requires Distinct(s) && tmr !in s && tmr.prev == null && tmr.next == NodeAt(s, 0)
    requires forall i {:trigger s[i].next} | 0 <= i < |s| :: s[i].next == NodeAt(s, i + 1)
    requires forall i {:trigger s[i].prev} | 0 <= i < |s| :: s[i].prev == if i == 0 then tmr else NodeAt(s, i - 1)
    ensures Chain(tmr, [tmr] + s)
  {
  }

  /** Links that lead from a timer through the nodes of a list back to itself belong to no list. */
  lemma NoChainAround(tmr: Timer, s0: seq<Timer>, k: nat)
    requires k < |s0| && s0[k] == tmr && tmr.next == s0[0]
    requires forall i {:trigger s0[i].next} | 0 <= i < k :: s0[i].next == s0[i + 1]
    ensures forall s :: !Chain(tmr, s)
  {
    forall s | Chain(tmr, s) ensures false {
      Followed(tmr, s0, k, s, k);
    }
  }

  // A list from tmr would have to go through the first k nodes.
  lemma {:induction false} Followed(tmr: Timer, s0: seq<Timer>, k: nat, s: seq<Timer>, i: nat)
    requires i <= k < |s0| && tmr.next == s0[0] && Chain(tmr, s)
    requires forall i {:trigger s0[i].next} | 0 <= i < k :: s0[i].next == s0[i + 1]
    ensures i + 1 < |s| && s[i + 1] == s0[i]
  {
    if i == 0 {
      assert s[0].next == NodeAt(s, 1);
    } else {
      Followed(tmr, s0, k, s, i - 1);
      assert s[i].next == NodeAt(s, i + 1);
    }
  }

  class TimerList {
    var head: Timer?
    var intrFlag: bool
    ghost var nodes: seq<Timer>            // the listed timers, head first
    ghost var known: set<Timer>            // every timer started so far
    ghost var history: History<Timer>  // what has happened since the list was initialised

    // timer_list_init
    constructor ()
      ensures Settled() && Faithful() && known == {} && history == Nothing && !intrFlag
    {
      head, intrFlag := null, false;
      nodes, known, history := [], {}, Nothing;
    }

    // What holds whenever an interrupt may come.
    ghost predicate Valid()
      reads this`head, this`nodes, this`known, nodes, known
    {
      && Chain(head, nodes) && (forall t | t in nodes :: t in known)
      && (forall t | t in known :: t.inList <==> t in nodes) && (forall t | t in nodes :: 0 < t.counter)
    }

    ghost predicate SettledBut(xs: set<Timer>)
      reads this`head, this`nodes, this`known, nodes, known
    {
      Valid() && AtRestBut(xs)
    }

    ghost predicate Settled()
      reads this`head, this`nodes, this`known, nodes, known
    {
      SettledBut({})
    }

    ghost function Abs(): State<Timer>
      reads this`nodes, this`known, known`counter
    {
      State(nodes, map t | t in known :: t.counter as nat)
    }

    // The linked list is what the history makes of an empty list.
    ghost predicate Faithful()
      reads this`nodes, this`known, this`history, known`counter
    {
      Legal(EMPTY, history) && Replay(EMPTY, history) == Abs()
    }

    ghost method Log(e: Event<Timer>)
      requires Legal(EMPTY, history) && Allowed(Replay(EMPTY, history), e) && Abs() == Apply(Replay(EMPTY, history), e)
      modifies this`history
      ensures history == Then(old(history), e) && Faithful()
    {
      history := Then(history, e);
    }

    // The three link assignments of timer_list_remove_timer. k is the position of the
    // timer, the list's length if an interrupt has already removed it.
    method Bypass(tmr: Timer, ghost k: nat)
      requires Chain(head, nodes) && k <= |nodes|
      requires if k < |nodes| then nodes[k] == tmr else tmr !in nodes && tmr.prev == null && tmr.next == null
      modifies this`head, nodes
      ensures Chain(head, if k < |nodes| then nodes[..k] + nodes[k + 1..] else nodes)
      ensures tmr.prev == old(tmr.prev) && tmr.next == old(tmr.next)
      ensures forall t | t in nodes ::
        t.counter == old(t.counter) && t.initialCounter == old(t.initialCounter) && t.inList == old(t.inList)
    {
      if tmr.prev != null { tmr.prev.next := tmr.next; }
      if tmr.next != null { tmr.next.prev := tmr.prev; }
      if tmr == head { head := tmr.next; }
      if k < |nodes| { Bypassed(head, nodes, k); }
    }

    /** The guarded part of timer_list_remove_timer. For a timer that an interrupt has
        removed in the meantime, it leaves the list as it is. */
    method Unlink(tmr: Timer)
      requires Chain(head, nodes) && (tmr in nodes || (tmr.prev == null && tmr.next == null))
      modifies this`head, this`nodes, nodes, tmr`inList
      ensures nodes == Without(old(nodes), tmr) && tmr !in nodes && Chain(head, nodes)
      ensures tmr.prev == old(tmr.prev) && tmr.next == old(tmr.next) && !tmr.inList
      ensures forall t | t in old(nodes) :: t.counter == old(t.counter) && t.initialCounter == old(t.initialCounter)
      ensures forall t | t in old(nodes) && t != tmr :: t in nodes && t.inList == old(t.inList)
    {
      ghost var k := if tmr in nodes then IndexOf(nodes, tmr) else |nodes|;
      Bypass(tmr, k);
      tmr.inList := false;
      if k < |nodes| { RemovedDistinct(nodes, k); }
      nodes := Without(nodes, tmr);
    }

    // But for those in xs: no unlisted timer has stale links, and none has a counter without an initial one.
    ghost predicate AtRestBut(xs: set<Timer>)
      reads this`head, this`nodes, this`known, nodes, known
    {
      && (forall t {:trigger t.counter} | t in known && t !in xs :: 0 < t.counter ==> 0 < t.initialCounter)
      && (forall t {:trigger t.prev} | t in known && t !in nodes && t !in xs :: t.prev == null)
      && (forall t {:trigger t.next} | t in known && t !in nodes && t !in xs :: t.next == null)
    }

    // Everything but positive counters.
    ghost predicate KeptBut(xs: set<Timer>)
      reads this`head, this`nodes, this`known, nodes, known
    {
      && Chain(head, nodes) && (forall t | t in nodes :: t in known)
      && (forall t | t in known :: t.inList <==> t in nodes) && AtRestBut(xs)
    }

    // Unlink, with what it leaves to be cleared.
    method Detach(tmr: Timer, ghost xs: set<Timer>)
      requires KeptBut(xs) && tmr in nodes
      modifies this`head, this`nodes, nodes
      ensures KeptBut(xs + {tmr}) && nodes == Without(old(nodes), tmr) && tmr in known && tmr !in nodes
      ensures 0 < tmr.counter ==> tmr in xs || 0 < tmr.initialCounter
      ensures forall t | t in known :: t.counter == old(t.counter) && t.initialCounter == old(t.initialCounter)
    {
      Unlink(tmr);
    }

    // tmr->prev = tmr->next = NULL
    method ClearLinks(tmr: Timer, ghost xs: set<Timer>)
      requires KeptBut(xs + {tmr}) && tmr in known && tmr !in nodes
      requires 0 < tmr.counter ==> tmr in xs || 0 < tmr.initialCounter
      modifies tmr`prev, tmr`next
      ensures KeptBut(xs) && tmr.next == null
    {
      tmr.next, tmr.prev := null, null;
    }

    // timer_list_remove_timer as the interrupt handler runs it, with the interrupt flag
    // clear and on a listed timer.
    method RemoveMasked(tmr: Timer, ghost xs: set<Timer>)
      requires KeptBut(xs) && tmr in nodes
      modifies this`head, this`nodes, nodes
      ensures KeptBut(xs) && nodes == Without(old(nodes), tmr) && tmr.next == null
      ensures forall t | t in known :: t.counter == old(t.counter) && t.initialCounter == old(t.initialCounter)
    {
      Detach(tmr, xs);
      ClearLinks(tmr, xs);
    }

    // The pass of timer_list_update has decremented the first i timers.
    ghost predicate Decremented(s0: State<Timer>, i: nat)
      reads this`known, known`counter
    {
      && known == s0.counter.Keys
      && forall t | t in known :: t.counter as int == s0.counter[t] as int - if t in First(s0.list, i) then 1 else 0
    }

    // Where the pass stands before its i-th timer: there, or past the one it expired.
    ghost predicate PassAt(tmr: Timer?, s0: State<Timer>, i: nat, xs: set<Timer>)
      requires Wf(s0)
      reads this`head, this`nodes, this`known, nodes, known
    {
      var e := FirstExpiring(s0.list, s0.counter);
      && KeptBut(xs) && Decremented(s0, i) && i <= |s0.list|
      && if i <= e then tmr == NodeAt(nodes, i) && nodes == s0.list
         else i == e + 1 && tmr == null && nodes == AfterTick(s0).list
    }

    lemma TickDone(s0: State<Timer>, i: nat, xs: set<Timer>)
      requires Wf(s0) && PassAt(null, s0, i, xs)
      ensures SettledBut(xs) && Abs() == AfterTick(s0)
    {
      assert First(s0.list, i) == Reached(s0);
      IsAfterTick(s0, Abs());
      ApplyKeepsWf(s0, Tick);
      assert forall t | t in nodes :: 0 < Abs().counter[t];
    }

    method Visit(tmr: Timer, ghost s0: State<Timer>, ghost i: nat, ghost xs: set<Timer>) returns (next: Timer?)
      requires Wf(s0) && i < |s0.list| && PassAt(tmr, s0, i, xs)
      requires tmr.counter > 0
      modifies this`head, this`nodes, nodes
      ensures PassAt(next, s0, i + 1, xs)
      ensures forall t | t in known :: t.initialCounter == old(t.initialCounter)
    {
      CountDown(tmr, s0, i, xs);
      if tmr.counter == 0 {
        Expire(tmr, s0, i, xs);
      }
      next := tmr.next;
    }

    // The removal clears the timer's links, so that the pass ends here.
    method Expire(tmr: Timer, ghost s0: State<Timer>, ghost i: nat, ghost xs: set<Timer>)
      requires Wf(s0) && i == FirstExpiring(s0.list, s0.counter) < |s0.list| && tmr == s0.list[i]
      requires KeptBut(xs) && nodes == s0.list && Decremented(s0, i + 1)
      modifies this`head, this`nodes, nodes
      ensures PassAt(tmr.next, s0, i + 1, xs)
      ensures forall t | t in known :: t.initialCounter == old(t.initialCounter)
    {
      RemoveMasked(tmr, xs);
      IndexIs(s0.list, tmr, i);
    }

    // --tmr->counter
    method CountDown(tmr: Timer, ghost s0: State<Timer>, ghost i: nat, ghost xs: set<Timer>)
      requires Wf(s0) && i < |s0.list| && nodes == s0.list && KeptBut(xs) && Decremented(s0, i) && tmr == s0.list[i]
      requires tmr.counter > 0
      modifies tmr`counter
      ensures KeptBut(xs) && Decremented(s0, i + 1) && tmr.counter == old(tmr.counter) - 1
    {
      tmr.counter := tmr.counter - 1;
    }

    /** timer_list_update: one pass over the list, which ends with the first timer that
        expires, because its removal clears the link the pass would follow. */
    method Update(ghost xs: set<Timer>)
      requires SettledBut(xs)
      modifies this`head, this`nodes, nodes
      ensures SettledBut(xs) && Abs() == AfterTick(old(Abs()))
      ensures forall t | t in known :: t.initialCounter == old(t.initialCounter)
    {
      ghost var s0 := Abs();
      ghost var i := 0;
      var tmr := head;
      PassStarts(xs);
      while tmr != null
        invariant PassAt(tmr, s0, i, xs)
        invariant forall t | t in known :: t.initialCounter == old(t.initialCounter)
        decreases |s0.list| - i
      {
        PassContinues(tmr, s0, i, xs);
        tmr := Visit(tmr, s0, i, xs);
        i := i + 1;
      }
      TickDone(s0, i, xs);
    }

    lemma PassStarts(xs: set<Timer>)
      requires SettledBut(xs)
      ensures Wf(Abs()) && PassAt(head, Abs(), 0, xs)
    {
    }

    lemma PassContinues(tmr: Timer, s0: State<Timer>, i: nat, xs: set<Timer>)
      requires Wf(s0) && PassAt(tmr, s0, i, xs)
      ensures i < |s0.list| && tmr in nodes && tmr.counter > 0
    {
    }

    // pit_isr: the interrupt flag is clear while it runs.
    method Isr(ghost xs: set<Timer>)
      requires SettledBut(xs) && Faithful()
      modifies this`head, this`nodes, this`history, nodes
      ensures SettledBut(xs) && Faithful() && history == Then(old(history), Tick)
      ensures forall t | t in known :: t.initialCounter == old(t.initialCounter)
      ensures forall t | t in nodes :: t in old(nodes)
    {
      Update(xs);
      Log(Tick);
    }

    /** Any number of clock interrupts, when they are enabled. xs are timers whose fields
        the interrupted code is about to set right. */
    method Interrupts(ghost xs: set<Timer>)
      requires SettledBut(xs) && Faithful()
      modifies this`head, this`nodes, this`history, known
      ensures SettledBut(xs) && Faithful()
      ensures OnlyTicks(old(history), history) && (!intrFlag ==> history == old(history))
      ensures forall t | t in known :: t.initialCounter == old(t.initialCounter)
      ensures forall t | t in nodes :: t in old(nodes)
      ensures forall t | t in known && t !in old(nodes) :: t.counter == old(t.counter)
    {
      ghost var h, s := history, Abs();
      TakeInterrupts(xs);
      TicksOnUnlisted(EMPTY, h, history);
      assert forall t | t in known && t !in s.list :: Abs().counter[t] == s.counter[t];
    }

    method TakeInterrupts(ghost xs: set<Timer>)
      requires SettledBut(xs) && Faithful()
      modifies this`head, this`nodes, this`history, known
      ensures SettledBut(xs) && Faithful()
      ensures OnlyTicks(old(history), history) && (!intrFlag ==> history == old(history))
      ensures forall t | t in known :: t.initialCounter == old(t.initialCounter)
    {
      if intrFlag {
        var k: nat := *;
        while k > 0
          invariant SettledBut(xs) && Faithful() && OnlyTicks(old(history), history)
          invariant forall t | t in known :: t.initialCounter == old(t.initialCounter)
        {
          Isr(xs);
          k := k - 1;
        }
      }
    }

    // The listed timers are linked, but for tmr's own links if it is one of them.
    ghost predicate LinkedBut(tmr: Timer)
      reads this`head, this`nodes, nodes
    {
      && Distinct(nodes) && head == NodeAt(nodes, 0)
      && (forall i {:trigger nodes[i].next} | 0 <= i < |nodes| && nodes[i] != tmr ::
        nodes[i].next == NodeAt(nodes, i + 1))
      && (forall i {:trigger nodes[i].prev} | 0 <= i < |nodes| && nodes[i] != tmr ::
        nodes[i].prev == NodeAt(nodes, i - 1))
    }

    /** The link assignments of timer_list_add_timer. They make a list if and only if the timer was
        not listed; for a listed one they close a cycle. */
    method Link(tmr: Timer)
      requires LinkedBut(tmr) && (tmr !in nodes ==> tmr.prev == null)
      modifies this`head, tmr`next, nodes`prev
      ensures head == tmr && (tmr !in nodes ==> Chain(head, [tmr] + nodes))
      ensures (exists s :: Chain(head, s)) <==> tmr !in nodes
    {
      tmr.next := head;
      if head != null { head.prev := tmr; }
      head := tmr;
      if tmr in nodes {
        NoChainAround(tmr, nodes, IndexOf(nodes, tmr));
      } else {
        Prepended(tmr, nodes);
      }
    }

    /** timer_start clears the timer's own links first: the outcome is the same. */
    method Relink(tmr: Timer)
      requires Chain(head, nodes)
      modifies this`head, tmr`next, tmr`prev, nodes`prev
      ensures head == tmr && (tmr !in nodes ==> Chain(head, [tmr] + nodes))
      ensures (exists s :: Chain(head, s)) <==> tmr !in nodes
    {
      tmr.next, tmr.prev := null, null;
      Link(tmr);
    }

    method Push(tmr: Timer)
      requires Settled() && Faithful() && tmr in known && tmr !in nodes && 0 < tmr.counter
      modifies this`head, this`nodes, this`history, known`next, known`prev, known`inList
      ensures Settled() && Faithful() && history == Then(old(history), Add(tmr)) && tmr in nodes
    {
      ghost var s := Abs();
      Prepend(tmr);
      assert Abs().counter == s.counter;
      Log(Add(tmr));
    }

    // The guarded part of timer_list_add_timer.
    method Prepend(tmr: Timer)
      requires Settled() && tmr in known && tmr !in nodes && 0 < tmr.counter
      modifies this`head, this`nodes, known`next, known`prev, known`inList
      ensures Settled() && nodes == [tmr] + old(nodes)
    {
      Link(tmr);
      tmr.inList := true;
      nodes := [tmr] + nodes;
    }

    // The part of timer_list_add_timer that runs with interrupts disabled.
    method PushMasked(tmr: Timer)
      requires Settled() && Faithful() && tmr in known && tmr !in nodes && 0 < tmr.counter
      modifies this`head, this`nodes, this`history, this`intrFlag, known`next, known`prev, known`inList
      ensures Settled() && Faithful() && history == Then(old(history), Add(tmr)) && tmr in nodes
      ensures intrFlag == old(intrFlag)
    {
      var flag := intrFlag;
      intrFlag := false;
      Push(tmr);
      intrFlag := flag;
    }

    /** timer_list_add_timer: the timer is listed at the head if its counter is positive,
        with ticks before (up to mid) and after. */
    method AddTimer(tmr: Timer) returns (ghost mid: History<Timer>)
      requires Settled() && Faithful() && tmr in known && tmr !in nodes
      modifies this`head, this`nodes, this`history, this`intrFlag, known
      ensures Settled() && Faithful() && intrFlag == old(intrFlag)
      ensures OnlyTicks(old(history), mid)
      ensures OnlyTicks(if old(tmr.counter) == 0 then mid else Then(mid, Add(tmr)), history)
      ensures !intrFlag ==> mid == old(history) && history == if old(tmr.counter) == 0 then mid else Then(mid, Add(tmr))
      ensures forall t | t in known :: t.initialCounter == old(t.initialCounter)
    {
      ghost var h := history;
      Interrupts({});
      mid := history;
      if tmr.counter == 0 { return; }
      ghost var h1 := history;
      mid := AddGuarded(tmr);
      TicksJoin(h, h1, mid);
    }

    method AddGuarded(tmr: Timer) returns (ghost mid: History<Timer>)
      requires Settled() && Faithful() && tmr in known && tmr !in nodes && 0 < tmr.counter
      modifies this`head, this`nodes, this`history, this`intrFlag, known
      ensures Settled() && Faithful() && intrFlag == old(intrFlag)
      ensures OnlyTicks(old(history), mid) && OnlyTicks(Then(mid, Add(tmr)), history)
      ensures !intrFlag ==> mid == old(history) && history == Then(mid, Add(tmr))
      ensures forall t | t in known :: t.initialCounter == old(t.initialCounter)
    {
      Interrupts({});
      mid := history;
      PushMasked(tmr);
      Interrupts({});
    }

    method Drop(tmr: Timer)
      requires Settled() && Faithful() && tmr in known
      modifies this`head, this`nodes, this`history, nodes, tmr`inList
      ensures SettledBut({tmr}) && Faithful() && history == Then(old(history), Remove(tmr)) && tmr !in nodes
      ensures forall t | t in known :: t.counter == old(t.counter) && t.initialCounter == old(t.initialCounter)
      ensures tmr !in old(nodes) ==> nodes == old(nodes) && tmr.prev == null && tmr.next == null
    {
      ghost var s := Abs();
      Unlink(tmr);
      assert Abs().counter == s.counter;
      Log(Remove(tmr));
    }

    // The part of timer_list_remove_timer that runs with interrupts disabled. An interrupt
    // may have removed the timer since it was found listed.
    method DropMasked(tmr: Timer)
      requires Settled() && Faithful() && tmr in known
      modifies this`head, this`nodes, this`history, this`intrFlag, nodes, tmr`inList
      ensures SettledBut({tmr}) && Faithful() && history == Then(old(history), Remove(tmr)) && tmr !in nodes
      ensures intrFlag == old(intrFlag)
      ensures forall t | t in known :: t.counter == old(t.counter) && t.initialCounter == old(t.initialCounter)
      ensures tmr !in old(nodes) ==> nodes == old(nodes) && tmr.prev == null && tmr.next == null
    {
      var flag := intrFlag;
      intrFlag := false;
      Drop(tmr);
      intrFlag := flag;
    }

    /** timer_list_remove_timer, that is timer_end, timer_stop and timer_pause: whether or
        not an interrupt gets there first, the timer is removed and keeps its counter. */
    method RemoveTimer(tmr: Timer) returns (ghost mid: History<Timer>)
      requires Settled() && Faithful() && tmr in known
      modifies this`head, this`nodes, this`history, this`intrFlag, known
      ensures Settled() && Faithful() && tmr !in nodes && intrFlag == old(intrFlag)
      ensures OnlyTicks(old(history), mid) && OnlyTicks(Then(mid, Remove(tmr)), history)
      ensures !intrFlag ==> mid == old(history) && history == Then(mid, Remove(tmr))
      ensures forall t | t in known :: t.initialCounter == old(t.initialCounter)
    {
      Interrupts({});
      ghost var h := history;
      mid := history;
      if tmr.inList {
        mid := RemoveListed(tmr);
        TicksJoin(old(history), h, mid);
      } else {
        Log(Remove(tmr));
      }
    }

    // From the in_list test on. An interrupt may still remove the timer.
    method RemoveListed(tmr: Timer) returns (ghost mid: History<Timer>)
      requires Settled() && Faithful() && tmr in known
      modifies this`head, this`nodes, this`history, this`intrFlag, known
      ensures Settled() && Faithful() && tmr !in nodes && intrFlag == old(intrFlag)
      ensures OnlyTicks(old(history), mid) && OnlyTicks(Then(mid, Remove(tmr)), history)
      ensures !intrFlag ==> mid == old(history) && history == Then(mid, Remove(tmr))
      ensures forall t | t in known :: t.initialCounter == old(t.initialCounter)
    {
      Interrupts({});
      mid := history;
      DropMasked(tmr);
      Interrupts({tmr});
      ClearLinks(tmr, {});
    }

    // ---- lib/timer.c

    // The assignments of timer_start. No interrupt looks at an unlisted timer.
    method Prepare(tmr: Timer, timeout: u32)
      requires Settled() && Faithful() && tmr !in nodes
      modifies tmr, this`known, this`history
      ensures Settled() && Faithful() && history == Then(old(history), Arm(tmr, timeout))
      ensures known == old(known) + {tmr} && tmr.counter == tmr.initialCounter == timeout
    {
      ghost var s := Abs();
      Initialise(tmr, timeout);
      assert Abs().counter == s.counter[tmr := timeout];
      Log(Arm(tmr, timeout));
    }

    method Initialise(tmr: Timer, timeout: u32)
      requires Settled() && tmr !in nodes
      modifies tmr, this`known
      ensures Settled() && known == old(known) + {tmr} && tmr.counter == tmr.initialCounter == timeout
    {
      tmr.next, tmr.prev := null, null;
      tmr.inList := false;
      tmr.initialCounter := timeout;
      tmr.counter := tmr.initialCounter;
      known := known + {tmr};
    }

    // tmr->counter = tmr->initial_counter
    method Rewind(tmr: Timer)
      requires Settled() && Faithful() && tmr in known
      modifies tmr`counter, this`history
      ensures Settled() && Faithful() && history == Then(old(history), Arm(tmr, tmr.initialCounter))
      ensures tmr.counter == tmr.initialCounter
    {
      ghost var s := Abs();
      tmr.counter := tmr.initialCounter;
      assert Abs().counter == s.counter[tmr := tmr.initialCounter];
      Log(Arm(tmr, tmr.initialCounter));
    }

    /** timer_start, for a timer that is not listed. */
    method Start(tmr: Timer, timeout: u32) returns (ghost armed: History<Timer>)
      requires Settled() && Faithful() && tmr !in nodes
      modifies this`head, this`nodes, this`history, this`intrFlag, this`known, known, tmr
      ensures Settled() && Faithful() && intrFlag == old(intrFlag) && known == old(known) + {tmr}
      ensures OnlyOwn(old(history), armed, tmr) && OnlyTicks(armed, history) && (!intrFlag ==> history == armed)
      ensures Counting(EMPTY, armed, tmr, timeout)
    {
      Interrupts({});
      ghost var h1 := history;
      Prepare(tmr, timeout);
      ghost var h2 := history;
      ghost var mid := AddTimer(tmr);
      armed := ArmedHistory(old(history), h1, h2, mid, tmr, timeout);
    }

    // What timer_start and timer_restart leave behind, put together.
    ghost method ArmedHistory(h0: History<Timer>, h1: History<Timer>, h2: History<Timer>, mid: History<Timer>,
                              tmr: Timer, c: nat)
      returns (armed: History<Timer>)
      requires OnlyTicks(h0, h1) && h2 == Then(h1, Arm(tmr, c)) && OnlyTicks(h2, mid) && Legal(EMPTY, h2)
      requires tmr !in Replay(EMPTY, h2).list && tmr in Replay(EMPTY, h2).counter && Replay(EMPTY, h2).counter[tmr] == c
      ensures armed == if c == 0 then mid else Then(mid, Add(tmr))
      ensures OnlyOwn(h0, armed, tmr) && Counting(EMPTY, armed, tmr, c)
    {
      ArmedThenAdded(EMPTY, h2, mid, tmr, c);
      OwnJoin(h0, h0, h1, tmr);
      OwnJoin(h0, h2, mid, tmr);
      armed := if c == 0 then mid else Then(mid, Add(tmr));
    }

    /** timer_restart: however interrupts fall, its last own action leaves the timer
        counting from its initial value, listed once unless that is zero. */
    method Restart(tmr: Timer) returns (ghost armed: History<Timer>)
      requires Settled() && Faithful() && tmr in known
      modifies this`head, this`nodes, this`history, this`intrFlag, known
      ensures Settled() && Faithful() && intrFlag == old(intrFlag)
      ensures OnlyOwn(old(history), armed, tmr) && OnlyTicks(armed, history) && (!intrFlag ==> history == armed)
      ensures Counting(EMPTY, armed, tmr, tmr.initialCounter)
      ensures forall t | t in known :: t.initialCounter == old(t.initialCounter)
      decreases if intrFlag then 1 else 0, 9
    {
      Interrupts({});
      ghost var h := history;
      OwnJoin(old(history), old(history), h, tmr);
      if !tmr.inList {
        armed := RestartUnlisted(tmr);
      } else {
        armed := RestartListed(tmr);
      }
      OwnJoin(old(history), h, armed, tmr);
    }

    // First scenario: the timer has triggered.
    method RestartUnlisted(tmr: Timer) returns (ghost armed: History<Timer>)
      requires Settled() && Faithful() && tmr in known && tmr !in nodes
      modifies this`head, this`nodes, this`history, this`intrFlag, known
      ensures Settled() && Faithful() && intrFlag == old(intrFlag)
      ensures OnlyOwn(old(history), armed, tmr) && OnlyTicks(armed, history) && (!intrFlag ==> history == armed)
      ensures Counting(EMPTY, armed, tmr, tmr.initialCounter)
      ensures forall t | t in known :: t.initialCounter == old(t.initialCounter)
    {
      Interrupts({});
      ghost var h1 := history;
      Rewind(tmr);
      ghost var h2 := history;
      ghost var mid := AddTimer(tmr);
      armed := ArmedHistory(old(history), h1, h2, mid, tmr, tmr.initialCounter);
    }

    // From the first in_list test on.
    method RestartListed(tmr: Timer) returns (ghost armed: History<Timer>)
      requires Settled() && Faithful() && tmr in known && (!intrFlag ==> tmr in nodes)
      modifies this`head, this`nodes, this`history, this`intrFlag, known
      ensures Settled() && Faithful() && intrFlag == old(intrFlag)
      ensures OnlyOwn(old(history), armed, tmr) && OnlyTicks(armed, history) && (!intrFlag ==> history == armed)
      ensures Counting(EMPTY, armed, tmr, tmr.initialCounter)
      ensures forall t | t in known :: t.initialCounter == old(t.initialCounter)
      decreases if intrFlag then 1 else 0, 8
    {
      Interrupts({});
      ghost var h := history;
      armed := RestartMasked(tmr);
      Interrupts({});
      OwnJoin(old(history), old(history), h, tmr);
      OwnJoin(old(history), h, armed, tmr);
    }

    // The part with interrupts disabled. An interrupt may have removed the timer since the
    // first test, hence the second; the recursive call then takes the first scenario.
    method RestartMasked(tmr: Timer) returns (ghost armed: History<Timer>)
      requires Settled() && Faithful() && tmr in known && (!intrFlag ==> tmr in nodes)
      modifies this`head, this`nodes, this`history, this`intrFlag, known
      ensures Settled() && Faithful() && intrFlag == old(intrFlag)
      ensures OnlyOwn(old(history), armed, tmr) && history == armed
      ensures Counting(EMPTY, armed, tmr, tmr.initialCounter)
      ensures forall t | t in known :: t.initialCounter == old(t.initialCounter)
      decreases if intrFlag then 1 else 0, 7
    {
      var flag := intrFlag;
      intrFlag := false;
      armed := RestartSecondTest(tmr);
      intrFlag := flag;
      assert Settled() && Faithful();
    }

    method RestartSecondTest(tmr: Timer) returns (ghost armed: History<Timer>)
      requires Settled() && Faithful() && tmr in known && !intrFlag
      modifies this`head, this`nodes, this`history, this`intrFlag, known
      ensures Settled() && Faithful() && !intrFlag
      ensures OnlyOwn(old(history), armed, tmr) && history == armed
      ensures Counting(EMPTY, armed, tmr, tmr.initialCounter)
      ensures forall t | t in known :: t.initialCounter == old(t.initialCounter)
      decreases 0, if tmr.inList then 0 else 10
    {
      if !tmr.inList {
        armed := Restart(tmr);
      } else {
        Rewind(tmr);
        armed := history;
      }
    }

    /** timer_resume, for a timer that is not listed: it counts on from where it stopped. */
    method Resume(tmr: Timer) returns (ghost armed: History<Timer>)
      requires Settled() && Faithful() && tmr in known && tmr !in nodes
      modifies this`head, this`nodes, this`history, this`intrFlag, known
      ensures Settled() && Faithful() && intrFlag == old(intrFlag)
      ensures OnlyOwn(old(history), armed, tmr) && OnlyTicks(armed, history) && (!intrFlag ==> history == armed)
      ensures Counting(EMPTY, armed, tmr, old(tmr.counter))
    {
      ghost var h0, c := history, tmr.counter;
      Interrupts({});
      ghost var h1 := history;
      if tmr.counter != 0 {
        ghost var mid := AddTimer(tmr);
        TicksJoin(h0, h1, mid);
        ArmedThenAdded(EMPTY, h0, mid, tmr, c);
        OwnJoin(h0, h0, mid, tmr);
        armed := Then(mid, Add(tmr));
      } else {
        ArmedThenAdded(EMPTY, h0, h1, tmr, c);
        OwnJoin(h0, h0, h1, tmr);
        armed := h1;
      }
    }

    method IsTriggered(tmr: Timer) returns (r: bool)
      requires Settled() && Faithful() && tmr in known
      ensures r <==> Replay(EMPTY, history).counter[tmr] == 0
      ensures r ==> tmr !in nodes
    {
      assert Abs().counter[tmr] == tmr.counter;
      r := tmr.counter == 0;
    }

    // A call concerns a timer that has been started, or starts one that is not listed, such as a
    // zeroed one.
    ghost predicate Callable(c: Call)
      reads this`known, c.tmr`inList
    {
      c.tmr in known || (c.CallStart? && !c.tmr.inList)
    }

    /** Any sequence of calls that starts and resumes unlisted timers only, with interrupts
        anywhere: the list stays well formed, and is what the history makes of it. A timer that
        no call concerns is left to the ticks. */
    method Drive(calls: seq<Call>)
      requires Settled() && Faithful() && AllIntroduced(calls, known)
      requires forall c | c in calls && c.tmr !in known :: !c.tmr.inList
      modifies this`head, this`nodes, this`history, this`intrFlag, this`known, known, set c | c in calls :: c.tmr
      ensures Settled() && Faithful() && intrFlag == old(intrFlag)
      ensures known == old(known) + Concerned(calls)
      ensures OnlyAmong(old(history), history, Concerned(calls))
    {
      for i := 0 to |calls|
        invariant Settled() && Faithful() && intrFlag == old(intrFlag) && known == old(known) + Concerned(calls[..i])
        invariant forall c | c in calls && c.tmr !in known :: !c.tmr.inList
        invariant OnlyAmong(old(history), history, Concerned(calls))
      {
        IntroducedAt(calls, old(known), i);
        ghost var h := history;
        assert Callable(calls[i]);
        Perform(calls[i]);
        AmongJoin(old(history), h, history, calls[i].tmr, Concerned(calls));
      }
      assert calls[..|calls|] == calls;
    }

    method Perform(c: Call)
      requires Settled() && Faithful() && Callable(c)
      modifies this`head, this`nodes, this`history, this`intrFlag, this`known, known, c.tmr
      ensures Settled() && Faithful() && intrFlag == old(intrFlag) && known == old(known) + {c.tmr}
      ensures OnlyOwn(old(history), history, c.tmr)
    {
      ghost var h := history;
      match c {
        case CallStart(t, timeout) =>
          if !t.inList {
            ghost var armed := Start(t, timeout);
            OwnJoin(h, armed, history, t);
          }
        case CallStop(t) =>
          ghost var mid := RemoveTimer(t);
          OwnJoin(h, h, mid, t);
          OwnJoin(h, Then(mid, Remove(t)), history, t);
        case CallResume(t) =>
          if !t.inList {
            ghost var armed := Resume(t);
            OwnJoin(h, armed, history, t);
          }
        case CallRestart(t) =>
          ghost var armed := Restart(t);
          OwnJoin(h, armed, history, t);
      }
    }

    /** A timer is started and then left to the ticks, while any calls concern other timers. It is
        late by exactly the ticks in which a timer ahead of it expires. */
    method StartAndDrive(tmr: Timer, timeout: u32, calls: seq<Call>)
      returns (ghost armed: History<Timer>, ghost later: History<Timer>)
      requires Settled() && Faithful() && tmr !in nodes && 0 < timeout
      requires AllIntroduced(calls, known) && tmr !in Concerned(calls)
      requires forall c | c in calls && c.tmr !in known :: !c.tmr.inList
      modifies this`head, this`nodes, this`history, this`intrFlag, this`known, known, tmr, set c | c in calls :: c.tmr
      ensures Settled() && Faithful() && intrFlag == old(intrFlag) && tmr in known
      ensures Counting(EMPTY, armed, tmr, timeout) && history == Append(armed, later) && LeavesAlone(later, tmr)
      ensures var served := TickCount(later) - BlockedCount(Replay(EMPTY, armed), later, tmr);
        && (tmr in nodes <==> served < timeout)
        && tmr.counter == (if tmr in nodes then timeout - served else 0)
        && (TickCount(later) < timeout ==> tmr in nodes)
    {
      armed := Start(tmr, timeout);
      ghost var h := history;
      Drive(calls);
      AfterTicks(armed, h, history, Concerned(calls));
      later := AmongIsAppended(armed, history, Concerned(calls), tmr);
      LatenessSinceArmed(EMPTY, armed, later, tmr, timeout);
      assert Abs().counter[tmr] == tmr.counter;
    }
  }

  // The timers that the calls concern.
  ghost function Concerned(calls: seq<Call>): set<Timer> { set c | c in calls :: c.tmr }

  // Every call concerns a timer started before it, or starts one.
  ghost predicate AllIntroduced(calls: seq<Call>, known: set<Timer>) {
    forall i | 0 <= i < |calls| :: calls[i].CallStart? || calls[i].tmr in known + Concerned(calls[..i])
  }

  lemma IntroducedAt(calls: seq<Call>, known: set<Timer>, i: nat)
    requires i < |calls|
    ensures Concerned(calls[..i + 1]) == Concerned(calls[..i]) + {calls[i].tmr}
    ensures AllIntroduced(calls, known) ==> calls[i].CallStart? || calls[i].tmr in known + Concerned(calls[..i])
  {
    assert calls[..i + 1] == calls[..i] + [calls[i]];
    forall t | t in Concerned(calls[..i + 1]) ensures t in Concerned(calls[..i]) + {calls[i].tmr} {}
    assert calls[i] in calls[..i + 1];
    forall c | c in calls[..i] ensures c in calls[..i + 1] {}
  }

  ghost function First<T>(s: seq<T>, i: nat): seq<T> {
    if i < |s| then s[..i] else s
  }
}
