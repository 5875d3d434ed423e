/**
 The timer queue: timers ordered by a copy of their expiration, a one-shot timer
 descriptor armed for the first of them, and callbacks that may add timers while
 the expired ones run. Clock readings and callbacks are parameters.
 */
module TimerQueue {
  import opened Sequences

  datatype TimeUnit = Microseconds | Milliseconds | Seconds | Minutes | Hours

  /** Conversion of a double to an integer: towards zero. */
  function Truncate(x: real): int {
    if x >= 0.0 then x.Floor else -((-x).Floor)
  }

  /** An interval in microseconds; `round` is the rounding of products of doubles. */
  function Product(round: real -> real, interval: real, unit: TimeUnit): real {
    match unit
    case Microseconds => interval
    case Milliseconds => round(interval * 1000.0)
    case Seconds => round(interval * 1000000.0)
    case Minutes => round(round(interval * 60.0) * 1000000.0)
    case Hours => round(round(interval * 3600.0) * 1000000.0)
  }

  function AddTime(round: real -> real, time: int, interval: real, unit: TimeUnit): int {
    time + Truncate(Product(round, interval, unit))
  }

  function Abs(x: real): real {
    if x < 0.0 then -x else x
  }

  /** Rounding to 53 bits, as that of doubles is. */
  ghost predicate Close(round: real -> real) {
    forall x: real {:trigger round(x)} :: Abs(round(x) - x) * 9007199254740992.0 <= Abs(x) + 1.0
  }

  /** An interval in microseconds. */
  function Exact(interval: real, unit: TimeUnit): real {
    match unit
    case Microseconds => interval
    case Milliseconds => interval * 1000.0
    case Seconds => interval * 1000000.0
    case Minutes => interval * 60.0 * 1000000.0
    case Hours => interval * 3600.0 * 1000000.0
  }

  lemma {:induction false} TruncateIsClose(x: real)
    ensures Abs(Truncate(x) as real - x) < 1.0
  {
  }

  lemma {:induction false} OneProduct(round: real -> real, x: real)
    requires Close(round) && Abs(x) <= 2251799813685249.0
    ensures Abs(round(x) - x) < 0.3
  {
    assert Abs(round(x) - x) * 9007199254740992.0 <= Abs(x) + 1.0;
  }

  lemma {:induction false} TwoProducts(round: real -> real, x: real)
    requires Close(round) && Abs(x * 1000000.0) <= 2251799813685248.0
    ensures Abs(round(round(x) * 1000000.0) - x * 1000000.0) < 1.0
  {
    var y := round(x);
    assert Abs(y - x) * 9007199254740992.0 <= Abs(x) + 1.0;
    assert Abs(y * 1000000.0 - x * 1000000.0) < 0.3;
    OneProduct(round, y * 1000000.0);
  }

  lemma {:induction false} LongProductIsClose(round: real -> real, interval: real, unit: TimeUnit)
    requires Close(round) && Abs(Exact(interval, unit)) <= 2251799813685248.0 && (unit == Minutes || unit == Hours)
    ensures Abs(Product(round, interval, unit) - Exact(interval, unit)) < 1.0
  {
    if unit == Minutes {
      TwoProducts(round, interval * 60.0);
    } else {
      TwoProducts(round, interval * 3600.0);
    }
  }

  lemma {:induction false} ProductIsClose(round: real -> real, interval: real, unit: TimeUnit)
    requires Close(round) && Abs(Exact(interval, unit)) <= 2251799813685248.0
    ensures Abs(Product(round, interval, unit) - Exact(interval, unit)) < 1.0
  {
    match unit
    case Milliseconds => OneProduct(round, interval * 1000.0);
    case Seconds => OneProduct(round, interval * 1000000.0);
    case Microseconds =>
    case _ => LongProductIsClose(round, interval, unit);
  }

  /** With the rounding of doubles, intervals of up to 71 years are added to within two microseconds. */
  lemma {:induction false} AddTimeIsClose(round: real -> real, time: int, interval: real, unit: TimeUnit)
    requires Close(round) && Abs(Exact(interval, unit)) <= 2251799813685248.0
    ensures Abs((AddTime(round, time, interval, unit) - time) as real - Exact(interval, unit)) < 2.0
  {
    var p := Product(round, interval, unit);
    ProductIsClose(round, interval, unit);
    TruncateIsClose(p);
    assert AddTime(round, time, interval, unit) - time == Truncate(p);
  }

  function Max(a: int, b: int): int {
    if a < b then b else a
  }

  class Timer {
    var expiration: int
    var repeats: bool
    const interval: real
    const unit: TimeUnit
    const round: real -> real

    constructor (timestamp: int, interval: real, unit: TimeUnit, round: real -> real)
      ensures expiration == timestamp && repeats == (interval > 0.0)
      ensures this.interval == interval && this.unit == unit && this.round == round
    {
      expiration, repeats := timestamp, interval > 0.0;
      this.interval, this.unit, this.round := interval, unit, round;
    }

    /** `again` is what the callback returned. */
    method Run(again: bool)
      modifies this`repeats
      ensures repeats == (old(repeats) && again && interval > 0.0)
    {
      if !again || !(interval > 0.0) {
        repeats := false;
      }
    }

    method ReStart(now: int)
      modifies this`expiration
      ensures expiration == AddTime(round, now, interval, unit)
    {
      expiration := AddTime(round, now, interval, unit);
    }
  }

  datatype Entry = Entry(key: int, timer: Timer)

  /** A timer a callback asks for, and the clock when the descriptor is armed for it. */
  datatype Request = Request(timestamp: int, interval: real, unit: TimeUnit, now: int)

  /** What a callback does: timers it adds, and what it returns. */
  datatype Effect = Effect(requests: seq<Request>, again: bool)

  /** The descriptor: idle, armed at a time for a deadline, or expired and not yet read. */
  datatype Descriptor = Idle | Armed(at: int, deadline: int) | Expired

  // ---------------------------------------------------------------- ordered entries

  ghost function Elems(es: seq<Entry>): set<Entry> {
    if es == [] then {} else {es[0]} + Elems(es[1..])
  }

  lemma {:induction false} ElemsAre(es: seq<Entry>, e: Entry)
    ensures e in Elems(es) <==> e in es
    decreases |es|
  {
    if es != [] {
      ElemsAre(es[1..], e);
      assert es == [es[0]] + es[1..];
    }
  }

  /** The timers of some entries. */
  ghost function Owners(es: seq<Entry>): set<Timer> {
    set e | e in es :: e.timer
  }

  lemma {:induction false} OwnersCons(es: seq<Entry>)
    requires es != []
    ensures Owners(es) == {es[0].timer} + Owners(es[1..])
  {
    assert es == [es[0]] + es[1..];
  }

  ghost predicate Sorted(es: seq<Entry>) {
    |es| < 2 || (es[0].key <= es[1].key && Sorted(es[1..]))
  }

  ghost predicate Distinct(es: seq<Entry>) {
    es == [] || (es[0].timer !in Owners(es[1..]) && Distinct(es[1..]))
  }

  /** Every key is its timer's expiration, and every timer with an interval repeats. */
  ghost predicate Keyed(es: seq<Entry>)
    reads Owners(es)
  {
    forall e :: e in es ==> e.key == e.timer.expiration && e.timer.repeats == (e.timer.interval > 0.0)
  }

  /**
   The ordered set with one entry more. Entries of equal keys are ordered by
   address: it goes behind `ties` of them.
   */
  function Inserted(es: seq<Entry>, e: Entry, ties: nat): seq<Entry> {
    if es == [] || e.key < es[0].key || (e.key == es[0].key && ties == 0) then [e] + es
    else [es[0]] + Inserted(es[1..], e, if e.key == es[0].key then ties - 1 else ties)
  }

  lemma {:induction false} InsertedKeeps(es: seq<Entry>, e: Entry, ties: nat)
    requires Sorted(es)
    ensures var r := Inserted(es, e, ties);
      && Sorted(r) && Owners(r) == Owners(es) + {e.timer}
      && r != [] && r[0].key == if es == [] || e.key < es[0].key then e.key else es[0].key
    decreases |es|
  {
    var r := Inserted(es, e, ties);
    OwnersCons(r);
    if r == [e] + es {
      assert r[1..] == es;
    } else {
      var next := if e.key == es[0].key then ties - 1 else ties;
      InsertedKeeps(es[1..], e, next);
      assert r[1..] == Inserted(es[1..], e, next);
      OwnersCons(es);
    }
  }

  lemma {:induction false} InsertedAdds(es: seq<Entry>, e: Entry, ties: nat)
    requires Sorted(es)
    ensures Elems(Inserted(es, e, ties)) == Elems(es) + {e}
    decreases |es|
  {
    var r := Inserted(es, e, ties);
    if r == [e] + es {
      assert r[1..] == es;
    } else {
      var next := if e.key == es[0].key then ties - 1 else ties;
      InsertedAdds(es[1..], e, next);
      assert r[1..] == Inserted(es[1..], e, next);
    }
  }

  lemma {:induction false} InsertedIsDistinct(es: seq<Entry>, e: Entry, ties: nat)
    requires Sorted(es) && Distinct(es) && e.timer !in Owners(es)
    ensures Distinct(Inserted(es, e, ties))
    decreases |es|
  {
    var r := Inserted(es, e, ties);
    if r == [e] + es {
      assert r[1..] == es;
    } else {
      var next := if e.key == es[0].key then ties - 1 else ties;
      OwnersCons(es);
      InsertedIsDistinct(es[1..], e, next);
      InsertedKeeps(es[1..], e, next);
      assert r[1..] == Inserted(es[1..], e, next);
    }
  }

  lemma {:induction false} InsertedIsKeyed(es: seq<Entry>, e: Entry, ties: nat)
    requires Sorted(es) && Keyed(es)
    requires e.key == e.timer.expiration && e.timer.repeats == (e.timer.interval > 0.0)
    ensures Keyed(Inserted(es, e, ties))
  {
    InsertedAdds(es, e, ties);
    forall x | x in Inserted(es, e, ties)
      ensures x in es || x == e
    {
      ElemsAre(Inserted(es, e, ties), x);
      ElemsAre(es, x);
    }
  }

  /** The number of entries before the first whose key is at least `now`. */
  function LowerBound(es: seq<Entry>, now: int): (k: nat)
    ensures k <= |es| && forall i :: 0 <= i < k ==> es[i].key < now
    ensures k < |es| ==> es[k].key >= now
  {
    if es == [] || es[0].key >= now then 0 else 1 + LowerBound(es[1..], now)
  }

  lemma {:induction false} FirstIsLeast(es: seq<Entry>)
    requires Sorted(es) && es != []
    ensures forall i :: 0 <= i < |es| ==> es[0].key <= es[i].key
    decreases |es|
  {
    if |es| > 1 {
      FirstIsLeast(es[1..]);
      assert forall i :: 0 < i < |es| ==> es[i] == es[1..][i - 1];
    }
  }

  /** Both parts of a cut at the lower bound keep what the whole keeps, and share no timer. */
  lemma {:induction false} CutKeeps(a: seq<Entry>, b: seq<Entry>, now: int)
    requires Sorted(a + b) && Distinct(a + b) && (b != [] ==> b[0].key >= now)
    ensures Sorted(b) && Distinct(a) && Distinct(b) && Apart(a, 0, b)
    ensures forall i :: 0 <= i < |b| ==> b[i].key >= now
    decreases |a|
  {
    if a == [] {
      assert a + b == b;
      if b != [] {
        FirstIsLeast(b);
      }
    } else {
      assert (a + b)[1..] == a[1..] + b;
      CutKeeps(a[1..], b, now);
      OwnersAppend(a[1..], b);
      assert forall j :: 0 < j < |a| ==> a[j] == a[1..][j - 1];
    }
  }

  lemma {:induction false} KeyedParts(a: seq<Entry>, b: seq<Entry>)
    requires Keyed(a + b)
    ensures Keyed(b) && Owners(a) <= Owners(a + b)
    ensures forall i :: 0 <= i < |a| ==> a[i].timer.repeats == (a[i].timer.interval > 0.0)
  {
    assert forall i :: 0 <= i < |a| ==> (a + b)[i] == a[i];
    OwnersAppend(a, b);
  }

  /** The i-th of some distinct entries shares its timer with no other. */
  lemma {:induction false} DistinctAt(es: seq<Entry>, i: nat)
    requires i < |es| && Distinct(es)
    ensures es[i].timer in Owners(es)
    ensures forall j :: 0 <= j < |es| && j != i ==> es[j].timer != es[i].timer
    decreases |es|
  {
    assert es[i] in es;
    if i == 0 {
      forall j | 0 < j < |es|
        ensures es[j].timer != es[0].timer
      {
        assert es[1..][j - 1] in es[1..];
      }
    } else {
      DistinctAt(es[1..], i - 1);
      assert es[1..][i - 1] in es[1..];
      assert forall j :: 0 < j < |es| ==> es[j] == es[1..][j - 1];
    }
  }

  lemma {:induction false} Append(a: seq<Entry>, b: seq<Entry>)
    ensures Elems(a + b) == Elems(a) + Elems(b)
    decreases |a|
  {
    if a == [] {
      assert a + b == b;
    } else {
      assert (a + b)[1..] == a[1..] + b;
      Append(a[1..], b);
    }
  }

  lemma {:induction false} OwnersAppend(a: seq<Entry>, b: seq<Entry>)
    ensures Owners(a + b) == Owners(a) + Owners(b)
  {
  }

  /** The entries are those of the timers asked for. */
  ghost predicate Made(requests: seq<Request>, es: seq<Entry>) {
    |es| == |requests| && (es == [] || (MadeOne(requests[0], es[0]) && Made(requests[1..], es[1..])))
  }

  ghost predicate MadeOne(r: Request, e: Entry) {
    e.key == r.timestamp && e.timer.interval == r.interval && e.timer.unit == r.unit
  }

  lemma {:induction false} MadeAppend(r0: seq<Request>, es0: seq<Entry>, r1: seq<Request>, es1: seq<Entry>)
    requires Made(r0, es0) && Made(r1, es1)
    ensures Made(r0 + r1, es0 + es1)
    decreases |r0|
  {
    if r0 == [] {
      assert r0 + r1 == r1 && es0 + es1 == es1;
    } else {
      assert (r0 + r1)[1..] == r0[1..] + r1 && (es0 + es1)[1..] == es0[1..] + es1;
      MadeAppend(r0[1..], es0[1..], r1, es1);
    }
  }

  /** The timers of the first n entries, in order. */
  ghost function TimersTo(es: seq<Entry>, n: nat): seq<Timer>
    requires n <= |es|
  {
    if n == 0 then [] else TimersTo(es, n - 1) + [es[n - 1].timer]
  }

  /** No timer from the i-th on is one of the others. */
  ghost predicate Apart(active: seq<Entry>, i: nat, timers: seq<Entry>) {
    forall j :: i <= j < |active| ==> active[j].timer !in Owners(timers)
  }

  /** All that the first n callbacks ask for, in order. */
  ghost function Requests(script: nat -> Effect, n: nat): seq<Request> {
    if n == 0 then [] else Requests(script, n - 1) + script(n - 1).requests
  }

  /** The i-th timer that runs is to be inserted again. */
  ghost predicate Again(active: seq<Entry>, script: nat -> Effect, i: nat)
    requires i < |active|
  {
    active[i].timer.interval > 0.0 && script(i).again
  }

  /**
   The first i timers have run: each repeats if it is to be inserted again. The
   others repeat if they have an interval.
   */
  ghost predicate Ran(active: seq<Entry>, script: nat -> Effect, i: nat)
    reads Owners(active)
  {
    forall j :: 0 <= j < |active| ==>
      active[j].timer in Owners(active) &&
      active[j].timer.repeats == if j < i then Again(active, script, j) else active[j].timer.interval > 0.0
  }

  /** The new entry of a timer, if it goes on. */
  ghost function Resumed(t: Timer, again: bool, now: int): seq<Entry> {
    if again then [Entry(AddTime(t.round, now, t.interval, t.unit), t)] else []
  }

  /** The entries of those of the first n timers that go on, with their new keys. */
  ghost function Restarted(active: seq<Entry>, script: nat -> Effect, clock: nat -> int, n: nat): seq<Entry>
    requires n <= |active|
  {
    if n == 0 then []
    else
      Restarted(active, script, clock, n - 1) +
      Resumed(active[n - 1].timer, Again(active, script, n - 1), clock(n - 1))
  }

  // ---------------------------------------------------------------- the queue

  class TimerQueue {
    const round: real -> real
    var timers: seq<Entry>
    var fd: Descriptor
    ghost var log: seq<Timer>
    ghost var stock: seq<Entry>

    /**
     Every key is its timer's expiration, every timer is there once, in order.
     The stock holds the same entries, those inserted since the last cut behind.
     */
    ghost predicate Valid()
      reads this, Owners(timers)
    {
      Sorted(timers) && Distinct(timers) && Keyed(timers) && Elems(timers) == Elems(stock)
    }

    /** The descriptor will expire for the first timer, but not within 100 microseconds of its arming. */
    ghost predicate Watched()
      reads this
    {
      timers != [] ==> fd == Expired || (fd.Armed? && fd.deadline == Max(timers[0].key, fd.at + 100))
    }

    constructor (round: real -> real)
      ensures Valid() && Watched() && timers == [] && log == [] && this.round == round
    {
      this.round := round;
      timers, fd, log, stock := [], Idle, [], [];
    }

    /** The descriptor takes seconds and nanoseconds from now. */
    method ResetTimerFd(expiration: int, now: int)
      modifies this`fd
      ensures fd == Armed(now, Max(expiration, now + 100))
    {
      var difference := expiration - now;
      if difference < 100 {
        difference := 100;
      }
      var seconds, nanoseconds := difference / 1000000, difference % 1000000 * 1000;
      fd := Armed(now, now + (seconds * 1000000000 + nanoseconds) / 1000);
    }

    method Insert(timer: Timer) returns (resetInstantly: bool)
      requires Valid() && timer.repeats == (timer.interval > 0.0) && timer !in Owners(timers)
      modifies this`timers, this`stock
      ensures Valid() && stock == old(stock) + [Entry(timer.expiration, timer)]
      ensures Owners(timers) == Owners(old(timers)) + {timer} && timers != []
      ensures resetInstantly == (old(timers) == [] || timer.expiration < old(timers)[0].key)
      ensures timers[0].key == if resetInstantly then timer.expiration else old(timers)[0].key
    {
      resetInstantly := timers == [] || timer.expiration < timers[0].key;
      var e := Entry(timer.expiration, timer);
      var ties: nat := *;
      InsertedKeeps(timers, e, ties);
      InsertedAdds(timers, e, ties);
      Append(stock, [e]);
      InsertedIsDistinct(timers, e, ties);
      InsertedIsKeyed(timers, e, ties);
      timers := Inserted(timers, e, ties);
      stock := stock + [e];
    }

    method AddTimer(r: Request) returns (timer: Timer)
      requires Valid()
      modifies this`timers, this`stock, this`fd
      ensures Valid() && fresh(timer)
      ensures timer.expiration == r.timestamp && timer.interval == r.interval && timer.unit == r.unit
      ensures timer.round == round
      ensures stock == old(stock) + [Entry(r.timestamp, timer)]
      ensures Owners(timers) == Owners(old(timers)) + {timer}
      ensures old(Watched()) ==> Watched()
    {
      timer := new Timer(r.timestamp, r.interval, r.unit, round);
      var resetInstantly := Insert(timer);
      if resetInstantly {
        ResetTimerFd(timer.expiration, r.now);
      }
    }

    /** The i-th timer that a callback adds, after the entries of those before it. */
    method AddNext(requests: seq<Request>, i: nat, ghost added: seq<Entry>) returns (ghost e: Entry)
      requires Valid() && i < |requests| && Made(requests[..i], added)
      modifies this`timers, this`stock, this`fd
      ensures Valid() && fresh(e.timer) && Made(requests[..i + 1], added + [e])
      ensures stock == old(stock) + [e]
      ensures Owners(timers) == Owners(old(timers)) + {e.timer}
    {
      var timer := AddTimer(requests[i]);
      e := Entry(requests[i].timestamp, timer);
      MadeAppend(requests[..i], added, [requests[i]], [e]);
      assert requests[..i + 1] == requests[..i] + [requests[i]];
    }

    /** What a callback does to the queue: it adds timers. */
    method Call(requests: seq<Request>) returns (ghost added: seq<Entry>)
      requires Valid()
      modifies this`timers, this`stock, this`fd
      ensures Valid() && Made(requests, added) && fresh(Owners(added))
      ensures stock == old(stock) + added
      ensures fresh(Owners(timers) - Owners(old(timers)))
    {
      added := [];
      var i := 0;
      while i < |requests|
        invariant i <= |requests| && Valid()
        invariant Made(requests[..i], added) && fresh(Owners(added))
        invariant stock == old(stock) + added
        invariant fresh(Owners(timers) - Owners(old(timers)))
      {
        ghost var e := AddNext(requests, i, added);
        Assoc(old(stock), added, [e]);
        OwnersAppend(added, [e]);
        added := added + [e];
        i := i + 1;
      }
      assert requests[..i] == requests;
    }

    /** One expired timer runs. */
    method RunTimer(t: Timer, effect: Effect) returns (ghost added: seq<Entry>)
      requires Valid() && t !in Owners(timers)
      modifies this`timers, this`stock, this`fd, this`log, t`repeats
      ensures Valid() && log == old(log) + [t]
      ensures t.repeats == (old(t.repeats) && effect.again && t.interval > 0.0)
      ensures Made(effect.requests, added) && fresh(Owners(added))
      ensures stock == old(stock) + added
      ensures fresh(Owners(timers) - Owners(old(timers)))
    {
      log := log + [t];
      added := Call(effect.requests);
      t.Run(effect.again);
    }

    /** One of the expired timers runs. */
    method RunNext(active: seq<Entry>, script: nat -> Effect, i: nat) returns (ghost more: seq<Entry>)
      requires Valid() && Distinct(active) && Apart(active, 0, timers) && i < |active| && Ran(active, script, i)
      modifies this`timers, this`stock, this`fd, this`log, active[i].timer`repeats
      ensures Valid() && Apart(active, 0, timers) && Ran(active, script, i + 1) && log == old(log) + [active[i].timer]
      ensures Made(script(i).requests, more) && fresh(Owners(more))
      ensures stock == old(stock) + more
    {
      DistinctAt(active, i);
      more := RunTimer(active[i].timer, script(i));
    }

    /** The i-th of the expired timers runs, after those before it have added their timers. */
    method RunNth(active: seq<Entry>, script: nat -> Effect, i: nat,
                  ghost log0: seq<Timer>, ghost stock0: seq<Entry>, ghost added: seq<Entry>)
        returns (ghost more: seq<Entry>)
      requires Valid() && Distinct(active) && Apart(active, 0, timers) && i < |active| && Ran(active, script, i)
      requires log == log0 + TimersTo(active, i) && stock == stock0 + added && Made(Requests(script, i), added)
      modifies this`timers, this`stock, this`fd, this`log, Owners(active)`repeats
      ensures Valid() && Apart(active, 0, timers) && Ran(active, script, i + 1)
      ensures log == log0 + TimersTo(active, i + 1) && stock == stock0 + (added + more)
      ensures Made(Requests(script, i + 1), added + more) && fresh(Owners(more))
    {
      assert active[i] in active;
      more := RunNext(active, script, i);
      Assoc(stock0, added, more);
      Assoc(log0, TimersTo(active, i), [active[i].timer]);
      MadeAppend(Requests(script, i), added, script(i).requests, more);
    }

    /** The expired timers run, in order. */
    method RunActive(active: seq<Entry>, script: nat -> Effect) returns (ghost added: seq<Entry>)
      requires Valid() && Distinct(active) && Apart(active, 0, timers) && Ran(active, script, 0)
      modifies this`timers, this`stock, this`fd, this`log, Owners(active)`repeats
      ensures Valid() && Apart(active, 0, timers) && Ran(active, script, |active|)
      ensures log == old(log) + TimersTo(active, |active|) && stock == old(stock) + added
      ensures Made(Requests(script, |active|), added) && fresh(Owners(added))
    {
      added := [];
      ghost var log0, stock0 := log, stock;
      // Timers made from here on are in no set of the timers there are.
      ghost var born := set t: Timer {:trigger t.unit} | allocated(t);
      var i := 0;
      while i < |active|
        invariant i <= |active| && Valid() && Apart(active, 0, timers) && Ran(active, script, i)
        invariant log == log0 + TimersTo(active, i) && stock == stock0 + added
        invariant Made(Requests(script, i), added) && Owners(added) !! born
      {
        ghost var more := RunNth(active, script, i, log0, stock0, added);
        OwnersAppend(added, more);
        assert Owners(more) !! born;
        added := added + more;
        i := i + 1;
      }
    }

    /** A timer that goes on is stamped anew and inserted again. */
    method Resume(timer: Timer, now: int)
      requires Valid() && timer !in Owners(timers) && (timer.repeats ==> timer.interval > 0.0)
      modifies this`timers, this`stock, timer`expiration
      ensures Valid() && Owners(timers) <= Owners(old(timers)) + {timer}
      ensures stock == old(stock) + Resumed(timer, timer.repeats, now)
    {
      if timer.repeats {
        timer.ReStart(now);
        var _ := Insert(timer);
      }
    }

    /** The i-th of the timers, after those before it. */
    method ResumeNth(active: seq<Entry>, clock: nat -> int, i: nat, ghost script: nat -> Effect,
                     ghost stock0: seq<Entry>)
      requires Valid() && Distinct(active) && Apart(active, i, timers) && i < |active| && Ran(active, script, |active|)
      requires stock == stock0 + Restarted(active, script, clock, i)
      modifies this`timers, this`stock, Owners(active)`expiration
      ensures Valid() && Apart(active, i + 1, timers) && Ran(active, script, |active|)
      ensures stock == stock0 + Restarted(active, script, clock, i + 1)
    {
      DistinctAt(active, i);
      var timer := active[i].timer;
      Assoc(stock0, Restarted(active, script, clock, i), Resumed(timer, timer.repeats, clock(i)));
      Resume(timer, clock(i));
    }

    /** The timers that go on are stamped anew and inserted again. */
    method ResumeAll(active: seq<Entry>, clock: nat -> int, ghost script: nat -> Effect)
      requires Valid() && Distinct(active) && Apart(active, 0, timers) && Ran(active, script, |active|)
      modifies this`timers, this`stock, Owners(active)`expiration
      ensures Valid() && stock == old(stock) + Restarted(active, script, clock, |active|)
    {
      ghost var stock0 := stock;
      for i := 0 to |active|
        invariant Valid() && Apart(active, i, timers) && Ran(active, script, |active|)
        invariant stock == stock0 + Restarted(active, script, clock, i)
      {
        ResumeNth(active, clock, i, script, stock0);
      }
    }

    /** The descriptor is armed for the first timer. */
    method ResetTimers(active: seq<Entry>, clock: nat -> int, now: int, ghost script: nat -> Effect)
      requires Valid() && Distinct(active) && Apart(active, 0, timers) && Ran(active, script, |active|)
      modifies this`timers, this`stock, this`fd, Owners(active)`expiration
      ensures Valid() && Watched()
      ensures stock == old(stock) + Restarted(active, script, clock, |active|)
    {
      ResumeAll(active, clock, script);
      if timers != [] {
        assert timers[0] in timers;
        ResetTimerFd(timers[0].timer.expiration, now);
      }
    }

    /** The descriptor's deadline passes. */
    method Expire()
      requires fd.Armed?
      modifies this`fd
      ensures fd == Expired && (old(Watched()) ==> Watched())
    {
      fd := Expired;
    }

    /** The entries before the first whose key is at least `now`, and the others. */
    static method CutAt(es: seq<Entry>, now: int) returns (a: seq<Entry>, b: seq<Entry>)
      ensures es == a + b && (b != [] ==> b[0].key >= now)
      ensures forall i :: 0 <= i < |a| ==> a[i].key < now
    {
      var end := LowerBound(es, now);
      return es[..end], es[end..];
    }

    /** Removes the entries before the first whose key is at least `now`. */
    method TakeExpired(now: int) returns (expired: seq<Entry>)
      requires Valid()
      modifies this`timers, this`stock
      ensures Valid() && old(timers) == expired + timers && stock == timers
      ensures forall i :: 0 <= i < |expired| ==> expired[i].key < now
      ensures forall i :: 0 <= i < |timers| ==> timers[i].key >= now
      ensures Distinct(expired) && Apart(expired, 0, timers) && Owners(expired) <= Owners(old(timers))
      ensures forall i :: 0 <= i < |expired| ==> expired[i].timer.repeats == (expired[i].timer.interval > 0.0)
    {
      var rest;
      expired, rest := CutAt(timers, now);
      CutKeeps(expired, rest, now);
      KeyedParts(expired, rest);
      timers, stock := rest, rest;
    }

    /**
     The descriptor is readable. `now` is the clock when the expired timers are
     taken, `clock` when each timer is stamped anew, `armed` when the descriptor is armed.
     */
    method HandleRead(now: int, script: nat -> Effect, clock: nat -> int, armed: int)
        returns (ghost active: seq<Entry>, ghost added: seq<Entry>)
      requires Valid()
      modifies this, Owners(timers)
      ensures Valid() && Watched()
      ensures active <= old(timers) && forall i :: 0 <= i < |active| ==> active[i].key < now
      ensures forall i :: |active| <= i < |old(timers)| ==> old(timers)[i].key >= now
      ensures log == old(log) + TimersTo(active, |active|)
      ensures Made(Requests(script, |active|), added) && fresh(Owners(added))
      ensures Elems(timers) == Elems(old(timers)[|active|..] + added + Restarted(active, script, clock, |active|))
    {
      if fd == Expired {
        fd := Idle;
      }
      var expired := TakeExpired(now);
      active := expired;
      added := RunActive(expired, script);
      ResetTimers(expired, clock, armed, script);
    }
  }
}
