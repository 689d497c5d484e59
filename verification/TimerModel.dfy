/** The timer list as a value, and what happens to it: clock ticks and the calls of
    lib/timer.c, in whatever order interrupts interleave them. */
module TimerModel {
  datatype Event<T> = Tick | Arm(t: T, c: nat) | Add(t: T) | Remove(t: T)

  // The listed timers, head first, and the counter of every timer ever armed.
  datatype State<!T> = State(list: seq<T>, counter: map<T, nat>)

  ghost predicate Distinct<T>(list: seq<T>) {
    forall i, j | 0 <= i < j < |list| :: list[i] != list[j]
  }

  ghost predicate Wf<T>(s: State<T>) {
    Distinct(s.list) && forall t | t in s.list :: t in s.counter && 0 < s.counter[t]
  }

  /** Position of the first listed timer that the next tick expires; the list's length if none. */
  ghost function FirstExpiring<T>(list: seq<T>, counter: map<T, nat>): (e: nat)
    ensures e <= |list| && (forall i | 0 <= i < e :: !(list[i] in counter && counter[list[i]] == 1))
    ensures e < |list| ==> list[e] in counter && counter[list[e]] == 1
  {
    if list == [] || (list[0] in counter && counter[list[0]] == 1) then 0 else 1 + FirstExpiring(list[1..], counter)
  }

  // The timers a tick decrements: the traversal ends with the first one that expires.
  ghost function Reached<T>(s: State<T>): seq<T> {
    var e := FirstExpiring(s.list, s.counter);
    if e < |s.list| then s.list[..e + 1] else s.list
  }

  ghost function AfterTick<T>(s: State<T>): State<T> {
    var e := FirstExpiring(s.list, s.counter);
    State(if e < |s.list| then s.list[..e] + s.list[e + 1..] else s.list,
          map t | t in s.counter :: if t in Reached(s) && 0 < s.counter[t] then s.counter[t] - 1 else s.counter[t])
  }

  lemma IsAfterTick<T>(s: State<T>, s': State<T>)
    requires Wf(s) && s'.list == AfterTick(s).list && s'.counter.Keys == s.counter.Keys
    requires forall t | t in s.counter :: s'.counter[t] as int == s.counter[t] as int - if t in Reached(s) then 1 else 0
    ensures s' == AfterTick(s)
  {
  }

  ghost function IndexOf<T>(list: seq<T>, t: T): (i: nat)
    requires t in list
    ensures i < |list| && list[i] == t
  {
    if list[0] == t then 0 else 1 + IndexOf(list[1..], t)
  }

  ghost function Without<T>(list: seq<T>, t: T): seq<T> {
    if t in list then list[..IndexOf(list, t)] + list[IndexOf(list, t) + 1..] else list
  }

  // What the callers and the code see to: only unlisted, armed timers are added, and a
  // listed timer is never armed with zero.
  ghost predicate Allowed<T>(s: State<T>, e: Event<T>) {
    match e
    case Tick => true
    case Arm(t, c) => t in s.list ==> 0 < c
    case Add(t) => t in s.counter && 0 < s.counter[t] && t !in s.list
    case Remove(_) => true
  }

  ghost function Apply<T>(s: State<T>, e: Event<T>): State<T> {
    match e
    case Tick => AfterTick(s)
    case Arm(t, c) => s.(counter := s.counter[t := c])
    case Add(t) => s.(list := [t] + s.list)
    case Remove(t) => s.(list := Without(s.list, t))
  }

  lemma RemovedDistinct<T>(list: seq<T>, k: nat)
    requires Distinct(list) && k < |list|
    ensures Distinct(list[..k] + list[k + 1..])
    ensures list[k] !in list[..k] + list[k + 1..]
    ensures forall t | t in list && t != list[k] :: t in list[..k] + list[k + 1..]
  {
  }

  lemma ApplyKeepsWf<T>(s: State<T>, e: Event<T>)
    requires Wf(s) && Allowed(s, e)
    ensures Wf(Apply(s, e))
  {
    if e.Remove? && e.t in s.list {
      RemovedDistinct(s.list, IndexOf(s.list, e.t));
    } else if e.Tick? {
      if FirstExpiring(s.list, s.counter) < |s.list| { RemovedDistinct(s.list, FirstExpiring(s.list, s.counter)); }
    }
  }

  /** What has happened, the latest event outermost. */
  datatype History<!T> = Nothing | Then(past: History<T>, event: Event<T>)

  ghost function Replay<T>(s: State<T>, h: History<T>): State<T> {
    match h
    case Nothing => s
    case Then(past, e) => Apply(Replay(s, past), e)
  }

  ghost predicate Legal<T>(s: State<T>, h: History<T>) {
    match h
    case Nothing => true
    case Then(past, e) => Legal(s, past) && Allowed(Replay(s, past), e)
  }

  /** Every legal run keeps the list free of duplicates and every listed counter positive. */
  lemma {:induction false} ReplayKeepsWf<T>(s: State<T>, h: History<T>)
    requires Wf(s) && Legal(s, h)
    ensures Wf(Replay(s, h))
  {
    if h.Then? {
      ReplayKeepsWf(s, h.past);
      ApplyKeepsWf(Replay(s, h.past), h.event);
    }
  }

  // h' is h followed by ticks.
  ghost predicate OnlyTicks<T>(h: History<T>, h': History<T>) {
    h' == h || (h'.Then? && h'.event.Tick? && OnlyTicks(h, h'.past))
  }

  lemma {:induction false} TicksJoin<T>(a: History<T>, b: History<T>, c: History<T>)
    requires OnlyTicks(a, b) && OnlyTicks(b, c)
    ensures OnlyTicks(a, c)
  {
    if c != b { TicksJoin(a, b, c.past); }
  }

  // h' is h followed by ticks and events about t.
  ghost predicate OnlyOwn<T>(h: History<T>, h': History<T>, t: T) {
    h' == h || (h'.Then? && (h'.event.Tick? || About(h'.event, t)) && OnlyOwn(h, h'.past, t))
  }

  lemma {:induction false} OwnJoin<T>(a: History<T>, b: History<T>, c: History<T>, t: T)
    requires OnlyOwn(a, b, t) && (OnlyOwn(b, c, t) || OnlyTicks(b, c))
    ensures OnlyOwn(a, c, t)
  {
    if c != b { OwnJoin(a, b, c.past, t); }
  }

  // After h, timer t counts from c, listed unless c is zero.
  ghost predicate Counting<T>(s: State<T>, h: History<T>, t: T, c: nat) {
    var s' := Replay(s, h);
    Legal(s, h) && t in s'.counter && s'.counter[t] == c && (t in s'.list <==> 0 < c)
  }

  /** An unlisted timer that is armed, and listed later if its counter is positive, counts
      from what it was armed with, however many ticks come in between. */
  lemma ArmedThenAdded<T>(s: State<T>, h: History<T>, mid: History<T>, t: T, c: nat)
    requires Wf(s) && Legal(s, h) && t !in Replay(s, h).list && t in Replay(s, h).counter
    requires Replay(s, h).counter[t] == c
    requires OnlyTicks(h, mid)
    ensures Counting(s, if c == 0 then mid else Then(mid, Add(t)), t, c)
  {
    TicksOnUnlisted(s, h, mid);
  }

  lemma TickOnUnlisted<T>(s: State<T>)
    requires Wf(s)
    ensures AfterTick(s).counter.Keys == s.counter.Keys
    ensures forall t | t in AfterTick(s).list :: t in s.list
    ensures forall t | t in s.counter && t !in s.list :: AfterTick(s).counter[t] == s.counter[t]
  {
  }

  /** Ticks list nobody and leave the counters of unlisted timers alone. */
  lemma {:induction false} TicksOnUnlisted<T>(s: State<T>, h: History<T>, h': History<T>)
    requires Wf(s) && Legal(s, h) && OnlyTicks(h, h')
    ensures Legal(s, h')
    ensures var a, b := Replay(s, h), Replay(s, h');
            && b.counter.Keys == a.counter.Keys
            && (forall t | t in b.list :: t in a.list)
            && forall t | t in a.counter && t !in a.list :: b.counter[t] == a.counter[t]
  {
    if h' != h {
      TicksOnUnlisted(s, h, h'.past);
      ReplayKeepsWf(s, h'.past);
      TickOnUnlisted(Replay(s, h'.past));
    }
  }

  // ---- Lateness

  ghost predicate About<T>(e: Event<T>, x: T) {
    !e.Tick? && e.t == x
  }

  ghost predicate LeavesAlone<T>(h: History<T>, x: T) {
    h.Then? ==> !About(h.event, x) && LeavesAlone(h.past, x)
  }

  ghost function TickCount<T>(h: History<T>): nat {
    match h
    case Nothing => 0
    case Then(past, e) => TickCount(past) + if e.Tick? then 1 else 0
  }

  ghost function AddCount<T>(h: History<T>): nat {
    match h
    case Nothing => 0
    case Then(past, e) => AddCount(past) + if e.Add? then 1 else 0
  }

  // A tick in which a timer ahead of the listed timer x expires, so that x is not reached.
  ghost predicate Blocked<T>(s: State<T>, x: T) {
    x in s.list && x !in Reached(s)
  }

  ghost function BlockedCount<T>(s: State<T>, h: History<T>, x: T): nat {
    match h
    case Nothing => 0
    case Then(past, e) => BlockedCount(s, past, x) + if e.Tick? && Blocked(Replay(s, past), x) then 1 else 0
  }

  /** What one tick does to a listed timer. */
  lemma TickOnTimer<T>(s: State<T>, x: T)
    requires Wf(s) && x in s.list
    ensures var s' := AfterTick(s);
            if Blocked(s, x) then
              x in s'.list && s'.counter[x] == s.counter[x] && IndexOf(s'.list, x) == IndexOf(s.list, x) - 1
            else s'.counter[x] == s.counter[x] - 1 &&
                 if s.counter[x] == 1 then x !in s'.list else x in s'.list && IndexOf(s'.list, x) == IndexOf(s.list, x)
  {
    var e, i, s' := FirstExpiring(s.list, s.counter), IndexOf(s.list, x), AfterTick(s);
    ApplyKeepsWf(s, Tick);
    if i < e {
      assert s'.list[i] == x;
      IndexIs(s'.list, x, i);
    } else if i > e {
      assert s'.list[i - 1] == x;
      assert forall j | 0 <= j <= e :: s.list[j] != x;
      IndexIs(s'.list, x, i - 1);
    }
  }

  lemma IndexIs<T>(list: seq<T>, x: T, i: nat)
    requires Distinct(list) && i < |list| && list[i] == x
    ensures IndexOf(list, x) == i
  {
  }

  // An event about another timer leaves x where it is, but for the shift of its position.
  lemma OtherEvent<T>(s: State<T>, e: Event<T>, x: T)
    requires Wf(s) && Allowed(s, e) && !e.Tick? && !About(e, x)
    ensures x in Apply(s, e).list <==> x in s.list
    ensures x in s.counter ==> x in Apply(s, e).counter && Apply(s, e).counter[x] == s.counter[x]
    ensures x in s.list ==> IndexOf(Apply(s, e).list, x) <= IndexOf(s.list, x) + if e.Add? then 1 else 0
  {
  }

  /** Exact lateness, over every run in which x itself is left alone: while x is listed its
      counter is the one it started with minus the ticks that were not blocked, and it
      leaves the list with the tick that makes these as many as its counter. */
  lemma {:induction false} Lateness<T>(s: State<T>, h: History<T>, x: T)
    requires Wf(s) && Legal(s, h) && x in s.list && LeavesAlone(h, x)
    ensures var s' := Replay(s, h); var served := TickCount(h) - BlockedCount(s, h, x);
            && x in s'.counter
            && (x in s'.list <==> served < s.counter[x])
            && s'.counter[x] == if x in s'.list then s.counter[x] - served else 0
  {
    if h.Then? {
      Lateness(s, h.past, x);
      var before := Replay(s, h.past);
      ReplayKeepsWf(s, h.past);
      if !h.event.Tick? {
        OtherEvent(before, h.event, x);
      } else if x in before.list {
        TickOnTimer(before, x);
      }
    }
  }

  /** A timer that counts from c never triggers before c ticks have passed; if no tick was
      blocked it is listed exactly as long as fewer than c have. */
  lemma NeverEarlyAndOnTime<T>(s: State<T>, h: History<T>, x: T)
    requires Wf(s) && Legal(s, h) && x in s.list && LeavesAlone(h, x)
    ensures TickCount(h) < s.counter[x] ==> x in Replay(s, h).list
    ensures BlockedCount(s, h, x) == 0 ==> (x in Replay(s, h).list <==> TickCount(h) < s.counter[x])
  {
    Lateness(s, h, x);
  }

  /** How late it can get: every blocked tick uses up one timer that was ahead of x at the
      start or was added since. */
  lemma {:induction false} LatenessBound<T>(s: State<T>, h: History<T>, x: T)
    requires Wf(s) && Legal(s, h) && x in s.list && LeavesAlone(h, x)
    ensures BlockedCount(s, h, x) + (if x in Replay(s, h).list then IndexOf(Replay(s, h).list, x) else 0)
            <= IndexOf(s.list, x) + AddCount(h)
  {
    if h.Then? {
      LatenessBound(s, h.past, x);
      var before := Replay(s, h.past);
      ReplayKeepsWf(s, h.past);
      if !h.event.Tick? {
        OtherEvent(before, h.event, x);
      } else if x in before.list {
        TickOnTimer(before, x);
      }
    }
  }

  /** A tick reaches every listed timer if and only if none but the last of them expires. */
  lemma TickReachesAllIff<T>(s: State<T>)
    requires Wf(s)
    ensures (forall t | t in s.list :: t in Reached(s)) <==>
            forall i | 0 <= i < |s.list| - 1 :: s.counter[s.list[i]] != 1
  {
    var e := FirstExpiring(s.list, s.counter);
    if e < |s.list| - 1 {
      var t := s.list[|s.list| - 1];
      assert t in s.list && t !in Reached(s);
    }
  }

  /** Two timers that expire with the same tick: it does not reach the second. */
  lemma SecondIsBlocked()
    ensures var s := State([1, 2], map[1 := 1, 2 := 1]); Wf(s) && Blocked(s, 2) && AfterTick(s).counter[2] == 1
  {
    var s := State([1, 2], map[1 := 1, 2 := 1]);
    assert FirstExpiring(s.list, s.counter) == 0;
    assert s.list[..1] == [1];
  }

  // ---- From a start on

  // b after a.
  ghost function Append<T>(a: History<T>, b: History<T>): History<T> {
    match b
    case Nothing => a
    case Then(past, e) => Then(Append(a, past), e)
  }

  lemma {:induction false} ReplayAppend<T>(s: State<T>, a: History<T>, b: History<T>)
    ensures Replay(s, Append(a, b)) == Replay(Replay(s, a), b)
    ensures Legal(s, Append(a, b)) <==> Legal(s, a) && Legal(Replay(s, a), b)
  {
    if b.Then? { ReplayAppend(s, a, b.past); }
  }

  // h' is h followed by ticks and events about timers in ts.
  ghost predicate OnlyAmong<T>(h: History<T>, h': History<T>, ts: set<T>) {
    h' == h || (h'.Then? && (h'.event.Tick? || h'.event.t in ts) && OnlyAmong(h, h'.past, ts))
  }

  lemma {:induction false} AmongJoin<T>(a: History<T>, b: History<T>, c: History<T>, t: T, ts: set<T>)
    requires OnlyAmong(a, b, ts) && OnlyOwn(b, c, t) && t in ts
    ensures OnlyAmong(a, c, ts)
  {
    if c != b { AmongJoin(a, b, c.past, t, ts); }
  }

  lemma {:induction false} AfterTicks<T>(a: History<T>, b: History<T>, c: History<T>, ts: set<T>)
    requires OnlyTicks(a, b) && OnlyAmong(b, c, ts)
    ensures OnlyAmong(a, c, ts)
  {
    if c != b {
      AfterTicks(a, b, c.past, ts);
    } else if b != a {
      AfterTicks(a, b.past, b.past, ts);
    }
  }

  lemma {:induction false} AmongIsAppended<T>(h: History<T>, h': History<T>, ts: set<T>, x: T)
    returns (later: History<T>)
    requires OnlyAmong(h, h', ts) && x !in ts
    ensures h' == Append(h, later) && LeavesAlone(later, x)
  {
    if h' == h {
      later := Nothing;
    } else {
      later := AmongIsAppended(h, h'.past, ts, x);
      later := Then(later, h'.event);
    }
  }

  /** Exact lateness since a (re)start: from the event after which x counts from c, over any run
      that leaves x alone. */
  lemma LatenessSinceArmed<T>(s: State<T>, armed: History<T>, later: History<T>, x: T, c: nat)
    requires Wf(s) && Legal(s, Append(armed, later)) && Counting(s, armed, x, c) && 0 < c && LeavesAlone(later, x)
    ensures var s' := Replay(s, Append(armed, later));
            var served := TickCount(later) - BlockedCount(Replay(s, armed), later, x);
            && x in s'.counter
            && (x in s'.list <==> served < c)
            && s'.counter[x] == (if x in s'.list then c - served else 0)
            && (TickCount(later) < c ==> x in s'.list)
  {
    ReplayAppend(s, armed, later);
    ReplayKeepsWf(s, armed);
    Lateness(Replay(s, armed), later, x);
    NeverEarlyAndOnTime(Replay(s, armed), later, x);
  }
}
