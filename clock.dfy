/** The timer wheel of Clock.cs.

    Every `Clock` is a timer with a deadline `elapsed` in microseconds (-1 while it is
    not scheduled), a creation index handed out from the shared counter `total`, a
    period `time` in milliseconds (`Once` for a one-shot timer) and one callback. The
    process-wide state that Clock.cs keeps in static fields (the counter and the
    `SortedDictionary` of scheduled timers) is the `Wheel` object. The sorted
    dictionary is the sequence `clocks`, kept in ascending (deadline, index) order.

    The pure part of the module describes the scheduled set as a sorted sequence of
    `Entry` values and one firing pass over it as the function `Pass`; the methods of
    `Clock` and `Wheel` are proved to act on their state exactly as these functions
    say. */
module Clocks {
  import opened Common

  /** `Clock.Once`, the period of a timer that fires only once. */
  const Once: int32 := -1

  /** A lower bound on the current time. `Clock.Now` counts microseconds since
      1970, so it is far above this bound, which keeps every deadline computed by
      `Start` non-negative (and so distinct from the "not running" mark -1). */
  const MinNow: int := 0x8000_0000 * 1000

  // ---------------------------------------------------------------------------
  // Deadlines and periods

  /** Deadline set by `Start(time)` at time `now`, with the product `time * 1000`
      taken without overflow. */
  function StartDeadline(now: int, time: int32): (r: int)
    ensures r - now == time as int * 1000
    ensures time > 0 ==> r > now && r == now + Step(time)
    ensures time == 0 ==> r == now
    ensures now >= MinNow ==> r >= 0
  {
    now + time as int * 1000
  }

  /** Deadline set by `Start(time)` as Clock.cs:147 computes it: `time * 1000` is
      a 32-bit product that wraps around before it is added to `now`. */
  function StartDeadlineAsWritten(now: int, time: int32): (r: int)
    ensures -2147483 <= time <= 2147483 ==> r == StartDeadline(now, time)
  {
    now + Wrap32(time as int * 1000) as int
  }

  /** How far a periodic timer's deadline moves when it fires: its period in
      microseconds, and at least one microsecond. */
  function Step(time: int32): (r: int)
    ensures r >= 1
    ensures time >= 1 ==> r == time as int * 1000
    ensures time <= 0 ==> r == 1
  {
    Max(time as int * 1000, 1)
  }

  /** The step as Clock.cs:89 computes it, with the wrapping 32-bit product. */
  function StepAsWritten(time: int32): (r: int)
    ensures r >= 1
    ensures -2147483 <= time <= 2147483 ==> r == Step(time)
  {
    Max(Wrap32(time as int * 1000) as int, 1)
  }

  /** A period of 2147484 ms (about 35.8 minutes) already overflows: the timer is
      started with a deadline in the past and then fires on every pass. */
  lemma PeriodOverflowAsWritten(now: int)
    ensures StartDeadlineAsWritten(now, 2147484) < now
    ensures StepAsWritten(2147484) == 1
    ensures StartDeadline(now, 2147484) == now + 2147484000
    ensures Step(2147484) == 2147484000
  {
    assert Wrap32(2147484000) as int == 2147484000 - Two32;
  }

  // ---------------------------------------------------------------------------
  // Callbacks

  /** The one callback a clock is constructed with (Clock.cs:122-132, 186-196). */
  datatype Handler =
    | Plain(id: nat)          // Action
    | OfClock(id: nat)        // Action<Clock> and Action<Clock<T>>
    | OfValue(id: nat)        // Action<T> of Clock<T>, called with Value

  /** What `Timeout` calls: callback `id`, with nothing, with the clock, or with
      the clock's `Value` field as it is at the call (user data, not modelled). */
  datatype Invocation = Invoke(id: nat, arg: Argument)
  datatype Argument = NoArgument | ClockArgument(index: int) | ValueOfClock(index: int)

  // ---------------------------------------------------------------------------
  // The scheduled set as a value

  /** One scheduled timer: its deadline and index (the sort key) and its period. */
  datatype Entry = Entry(deadline: int, index: int, period: int32)

  /** The order of Clock.Comparer (Clock.cs:170-174): by deadline, then by index. */
  predicate Before(a: Entry, b: Entry)
  {
    a.deadline < b.deadline || (a.deadline == b.deadline && a.index < b.index)
  }

  predicate Sorted(s: seq<Entry>)
  {
    forall i, j :: 0 <= i < j < |s| ==> Before(s[i], s[j])
  }

  function Indices(s: seq<Entry>): set<int>
  {
    if s == [] then {} else {s[0].index} + Indices(s[1..])
  }

  lemma {:induction false} IndicesExact(s: seq<Entry>, k: int)
    ensures k in Indices(s) <==> exists i :: 0 <= i < |s| && s[i].index == k
  {
    if s != [] {
      IndicesExact(s[1..], k);
      if k != s[0].index && k in Indices(s[1..]) {
        var i :| 0 <= i < |s[1..]| && s[1..][i].index == k;
        assert s[i + 1].index == k;
      }
    }
  }

  predicate UniqueIndices(s: seq<Entry>)
  {
    forall i, j :: 0 <= i < j < |s| ==> s[i].index != s[j].index
  }

  /** A well-formed scheduled set: sorted, and each timer in it at most once. */
  predicate WellFormed(s: seq<Entry>)
  {
    Sorted(s) && UniqueIndices(s)
  }

  lemma {:induction false} TailWellFormed(s: seq<Entry>)
    requires WellFormed(s) && s != []
    ensures WellFormed(s[1..]) && s[0].index !in Indices(s[1..])
    ensures forall i :: 0 <= i < |s[1..]| ==> Before(s[0], s[1..][i])
  {
    IndicesExact(s[1..], s[0].index);
  }

  /** Adding a timer to the sorted set (`SortedDictionary.Add`). */
  function Insert(s: seq<Entry>, x: Entry): (r: seq<Entry>)
    ensures |r| == |s| + 1
    ensures Indices(r) == Indices(s) + {x.index}
  {
    if s == [] || Before(x, s[0]) then
      assert ([x] + s)[1..] == s;
      [x] + s
    else
      var r := [s[0]] + Insert(s[1..], x);
      assert r[1..] == Insert(s[1..], x);
      assert s == [s[0]] + s[1..];
      r
  }

  /** Adding a timer adds exactly that timer. */
  lemma {:induction false} InsertMultiset(s: seq<Entry>, x: Entry)
    ensures multiset(Insert(s, x)) == multiset(s) + multiset{x}
  {
    if s != [] && !Before(x, s[0]) {
      InsertMultiset(s[1..], x);
      assert s == [s[0]] + s[1..];
    }
  }

  lemma {:induction false} ConsWellFormed(h: Entry, t: seq<Entry>)
    requires WellFormed(t)
    requires forall i :: 0 <= i < |t| ==> Before(h, t[i]) && h.index != t[i].index
    ensures WellFormed([h] + t)
  {
    var r := [h] + t;
    assert forall i :: 0 < i < |r| ==> r[i] == t[i - 1];
  }

  lemma {:induction false} InsertWellFormed(s: seq<Entry>, x: Entry)
    requires WellFormed(s) && x.index !in Indices(s)
    ensures WellFormed(Insert(s, x))
  {
    if s != [] && !Before(x, s[0]) {
      TailWellFormed(s);
      var t := Insert(s[1..], x);
      InsertWellFormed(s[1..], x);
      InsertMultiset(s[1..], x);
      IndicesExact(s, x.index);
      forall j | 0 <= j < |t| ensures Before(s[0], t[j]) && s[0].index != t[j].index {
        assert t[j] in multiset(t);
        assert t[j] in s[1..] || t[j] == x;
      }
      ConsWellFormed(s[0], t);
    } else {
      forall i | 0 <= i < |s| ensures Before(x, s[i]) && x.index != s[i].index {
        IndicesExact(s, x.index);
      }
      ConsWellFormed(x, s);
    }
  }

  /** Removing a timer from the sorted set (`SortedDictionary.Remove`). */
  function Remove(s: seq<Entry>, k: int): (r: seq<Entry>)
    ensures Indices(r) == Indices(s) - {k}
    ensures k !in Indices(s) ==> r == s
  {
    if s == [] then []
    else
      var rest := Remove(s[1..], k);
      assert s == [s[0]] + s[1..];
      if s[0].index == k then rest
      else
        var r := [s[0]] + rest;
        assert r[1..] == rest;
        r
  }

  /** Where `Insert` puts `x`: after every entry that is not after it. */
  function InsertPos(s: seq<Entry>, x: Entry): (p: nat)
    ensures p <= |s|
  {
    if s == [] || Before(x, s[0]) then 0 else 1 + InsertPos(s[1..], x)
  }

  lemma ConsSplit<T>(h: T, t: seq<T>, q: nat, x: T)
    requires q <= |t|
    ensures [h] + (t[..q] + [x] + t[q..]) == ([h] + t)[..q + 1] + [x] + ([h] + t)[q + 1..]
  {
    assert ([h] + t)[..q + 1] == [h] + t[..q];
    assert ([h] + t)[q + 1..] == t[q..];
  }

  lemma {:induction false} InsertSplit(s: seq<Entry>, x: Entry)
    ensures Insert(s, x) == s[..InsertPos(s, x)] + [x] + s[InsertPos(s, x)..]
  {
    if s != [] && !Before(x, s[0]) {
      InsertSplit(s[1..], x);
      ConsSplit(s[0], s[1..], InsertPos(s[1..], x), x);
      assert [s[0]] + s[1..] == s;
    } else {
      assert s[..0] == [] && s[0..] == s;
    }
  }

  /** The position of the first entry with index `k`, or `|s|` if there is none. */
  function IndexPos(s: seq<Entry>, k: int): (p: nat)
    ensures p <= |s|
    ensures p < |s| ==> s[p].index == k
    ensures forall i :: 0 <= i < p ==> s[i].index != k
  {
    if s == [] then 0 else if s[0].index == k then 0 else 1 + IndexPos(s[1..], k)
  }

  lemma RemoveSplit(s: seq<Entry>, k: int)
    requires UniqueIndices(s)
    ensures IndexPos(s, k) == |s| ==> Remove(s, k) == s
    ensures IndexPos(s, k) < |s| ==> Remove(s, k) == s[..IndexPos(s, k)] + s[IndexPos(s, k) + 1..]
  {
    if IndexPos(s, k) < |s| {
      RemoveAt(s, k);
    } else {
      IndicesExact(s, k);
    }
  }

  lemma {:induction false} RemoveAt(s: seq<Entry>, k: int)
    requires UniqueIndices(s) && IndexPos(s, k) < |s|
    ensures Remove(s, k) == s[..IndexPos(s, k)] + s[IndexPos(s, k) + 1..]
  {
    TailUnique(s);
    if s[0].index == k {
      RemoveFirst(s, k);
    } else {
      RemoveAt(s[1..], k);
      RemoveCons(s, k);
    }
  }

  lemma RemoveFirst(s: seq<Entry>, k: int)
    requires s != [] && s[0].index == k && k !in Indices(s[1..])
    ensures Remove(s, k) == s[..0] + s[0 + 1..]
  {
    assert Remove(s, k) == Remove(s[1..], k);
  }

  lemma RemoveCons(s: seq<Entry>, k: int)
    requires s != [] && s[0].index != k
    requires IndexPos(s[1..], k) < |s[1..]|
    requires Remove(s[1..], k) == s[1..][..IndexPos(s[1..], k)] + s[1..][IndexPos(s[1..], k) + 1..]
    ensures Remove(s, k) == s[..IndexPos(s, k)] + s[IndexPos(s, k) + 1..]
  {
    assert Remove(s, k) == [s[0]] + Remove(s[1..], k);
    DropCons(s, IndexPos(s[1..], k));
  }

  lemma TailUnique(s: seq<Entry>)
    requires UniqueIndices(s) && s != []
    ensures UniqueIndices(s[1..]) && s[0].index !in Indices(s[1..])
  {
    var t := s[1..];
    IndicesExact(t, s[0].index);
    forall i, j | 0 <= i < j < |t| ensures t[i].index != t[j].index {
      assert t[i] == s[i + 1] && t[j] == s[j + 1];
    }
    forall i | 0 <= i < |t| ensures t[i].index != s[0].index {
      assert t[i] == s[i + 1];
    }
  }

  lemma DropCons<T>(s: seq<T>, q: nat)
    requires q + 1 < |s|
    ensures s[..q + 1] + s[q + 2..] == [s[0]] + (s[1..][..q] + s[1..][q + 1..])
  {
    assert s[..q + 1] == [s[0]] + s[1..][..q];
    assert s[q + 2..] == s[1..][q + 1..];
  }

  lemma {:induction false} RemoveWellFormed(s: seq<Entry>, k: int)
    requires WellFormed(s)
    ensures WellFormed(Remove(s, k))
  {
    RemoveSplit(s, k);
    var p := IndexPos(s, k);
    if p < |s| {
      DeleteWellFormed(s, p);
    }
  }

  lemma {:induction false} DeleteWellFormed(s: seq<Entry>, p: nat)
    requires WellFormed(s) && p < |s|
    ensures WellFormed(s[..p] + s[p + 1..])
  {
    var r := s[..p] + s[p + 1..];
    forall i, j | 0 <= i < j < |r| ensures Before(r[i], r[j]) && r[i].index != r[j].index {
      var i', j' := if i < p then i else i + 1, if j < p then j else j + 1;
      assert r[i] == s[i'] && r[j] == s[j'];
    }
  }

  /** How many firings a pass at time `now` can still do for an entry: it falls
      by at least one each time the entry fires. */
  function Term(e: Entry, now: int): nat
  {
    if e.deadline <= now then now + 1 - e.deadline else 0
  }

  function Backlog(s: seq<Entry>, now: int): nat
  {
    if s == [] then 0 else Term(s[0], now) + Backlog(s[1..], now)
  }

  lemma {:induction false} BacklogInsert(s: seq<Entry>, x: Entry, now: int)
    ensures Backlog(Insert(s, x), now) == Backlog(s, now) + Term(x, now)
  {
    if s != [] && !Before(x, s[0]) {
      BacklogInsert(s[1..], x, now);
      assert Insert(s, x)[1..] == Insert(s[1..], x);
    } else {
      assert Insert(s, x)[1..] == s;
    }
  }

  /** The entry that fired at the head of `s`, rescheduled one period later. */
  function Advance(e: Entry): (r: Entry)
    ensures r.index == e.index && r.period == e.period
    ensures r.deadline > e.deadline
  {
    e.(deadline := e.deadline + Step(e.period))
  }

  /** The scheduled set once its head has fired: the head is removed and, if it
      is periodic, put back one step later. */
  function Next(s: seq<Entry>): seq<Entry>
    requires s != []
  {
    if s[0].period == Once then s[1..] else Insert(s[1..], Advance(s[0]))
  }

  lemma {:induction false} NextFacts(s: seq<Entry>, now: int)
    requires WellFormed(s) && s != [] && s[0].deadline <= now
    ensures WellFormed(Next(s))
    ensures Backlog(Next(s), now) < Backlog(s, now)
    ensures forall i :: 0 <= i < |Next(s)| ==> Before(s[0], Next(s)[i])
    ensures Indices(Next(s)) == Indices(s) - (if s[0].period == Once then {s[0].index} else {})
    ensures multiset(Next(s)) == multiset(s[1..])
              + if s[0].period == Once then multiset{} else multiset{Advance(s[0])}
  {
    TailWellFormed(s);
    NextIndices(s);
    if s[0].period != Once {
      NextPeriodic(s, now);
      InsertMultiset(s[1..], Advance(s[0]));
    }
  }

  lemma {:induction false} NextIndices(s: seq<Entry>)
    requires WellFormed(s) && s != []
    ensures Indices(Next(s)) == Indices(s) - (if s[0].period == Once then {s[0].index} else {})
  {
    TailWellFormed(s);
    assert Indices(s) == {s[0].index} + Indices(s[1..]);
  }

  lemma {:induction false} NextPeriodic(s: seq<Entry>, now: int)
    requires WellFormed(s) && s != [] && s[0].deadline <= now && s[0].period != Once
    ensures WellFormed(Next(s))
    ensures Backlog(Next(s), now) < Backlog(s, now)
    ensures forall i :: 0 <= i < |Next(s)| ==> Before(s[0], Next(s)[i])
  {
    TailWellFormed(s);
    var t := s[1..];
    var a := Advance(s[0]);
    InsertWellFormed(t, a);
    BacklogInsert(t, a, now);
    var n := Insert(t, a);
    InsertMultiset(t, a);
    forall i | 0 <= i < |n| ensures Before(s[0], n[i]) {
      assert n[i] in multiset(n);
      assert n[i] in t || n[i] == a;
    }
  }

  lemma {:induction false} NextMember(s: seq<Entry>, now: int, e: Entry)
    requires WellFormed(s) && s != [] && s[0].deadline <= now && e in s && e != s[0]
    ensures e in Next(s)
  {
    var i :| 0 <= i < |s| && s[i] == e;
    assert i > 0 && s[1..][i - 1] == e;
    assert e in s[1..];
    if s[0].period != Once {
      InsertMultiset(s[1..], Advance(s[0]));
      assert e in multiset(s[1..]);
      assert e in multiset(Next(s));
    }
  }

  /** One firing pass of `Clock.Update` (Clock.cs:73-104) at time `now`: the
      timers left scheduled and the timers fired, in firing order, each with the
      deadline it had when it fired. A pass stops at the first timer whose
      deadline is later than `now`; a periodic timer is put back one step later
      before its callback runs (so it can fire again in the same pass), a one-shot
      timer is dropped. */
  function Pass(s: seq<Entry>, now: int): (r: (seq<Entry>, seq<Entry>))
    requires WellFormed(s)
    decreases Backlog(s, now)
  {
    if s == [] || s[0].deadline > now then
      (s, [])
    else
      NextFacts(s, now);
      var r := Pass(Next(s), now);
      (r.0, [s[0]] + r.1)
  }

  /** A pass leaves a well-formed set of timers that are all later than `now`,
      with no index that was not there before, and fires timers that were due, in
      (deadline, index) order, starting with the earliest one. */
  lemma {:induction false} PassShape(s: seq<Entry>, now: int)
    requires WellFormed(s)
    ensures WellFormed(Pass(s, now).0)
    ensures forall i :: 0 <= i < |Pass(s, now).0| ==> Pass(s, now).0[i].deadline > now
    ensures Indices(Pass(s, now).0) <= Indices(s)
    ensures Sorted(Pass(s, now).1)
    ensures forall i :: 0 <= i < |Pass(s, now).1| ==> Pass(s, now).1[i].deadline <= now
    ensures Pass(s, now).1 != [] ==> s != [] && Pass(s, now).1[0] == s[0]
    decreases Backlog(s, now)
  {
    if s != [] && s[0].deadline <= now {
      NextFacts(s, now);
      var r := Pass(Next(s), now);
      PassShape(Next(s), now);
      assert forall j :: 0 <= j < |r.1| ==> Before(s[0], r.1[j]) by {
        if r.1 != [] {
          assert Before(s[0], r.1[0]);
        }
      }
    }
  }

  /** Every timer that was due fires in the pass. */
  lemma {:induction false} PassFiresEveryDue(s: seq<Entry>, now: int, e: Entry)
    requires WellFormed(s) && e in s && e.deadline <= now
    ensures e in Pass(s, now).1
    decreases Backlog(s, now)
  {
    if e != s[0] {
      NextFacts(s, now);
      NextMember(s, now, e);
      PassFiresEveryDue(Next(s), now, e);
    }
  }

  /** A timer that was not due stays scheduled, unchanged, and does not fire. */
  lemma {:induction false} PassKeepsLater(s: seq<Entry>, now: int, e: Entry)
    requires WellFormed(s) && e in s && e.deadline > now
    ensures e in Pass(s, now).0
    ensures forall i :: 0 <= i < |Pass(s, now).1| ==> Pass(s, now).1[i].index != e.index
    decreases Backlog(s, now)
  {
    if s != [] && s[0].deadline <= now {
      NextFacts(s, now);
      var n := Next(s);
      assert e != s[0];
      var k :| 0 <= k < |s| && s[k] == e;
      assert s[0].index != e.index;
      NextMember(s, now, e);
      PassKeepsLater(n, now, e);
    }
  }

  /** A due one-shot timer fires exactly once (the fired sequence is strictly
      sorted, so it holds no entry twice) and leaves the scheduled set. */
  lemma {:induction false} PassRetiresOneShot(s: seq<Entry>, now: int, e: Entry)
    requires WellFormed(s) && e in s && e.deadline <= now && e.period == Once
    ensures e in Pass(s, now).1
    ensures forall i :: 0 <= i < |Pass(s, now).1| && Pass(s, now).1[i].index == e.index
              ==> Pass(s, now).1[i] == e
    ensures e.index !in Indices(Pass(s, now).0)
    decreases Backlog(s, now)
  {
    PassFiresEveryDue(s, now, e);
    NextFacts(s, now);
    var n := Next(s);
    var r := Pass(n, now);
    assert Pass(s, now) == (r.0, [s[0]] + r.1);
    if e == s[0] {
      assert e.index !in Indices(n);
      PassNeverAddsIndex(n, now, e.index);
      PassShape(n, now);
    } else {
      var k :| 0 <= k < |s| && s[k] == e;
      assert s[0].index != e.index;
      NextMember(s, now, e);
      PassRetiresOneShot(n, now, e);
    }
  }

  lemma {:induction false} PassNeverAddsIndex(s: seq<Entry>, now: int, k: int)
    requires WellFormed(s) && k !in Indices(s)
    ensures forall i :: 0 <= i < |Pass(s, now).1| ==> Pass(s, now).1[i].index != k
    decreases Backlog(s, now)
  {
    if s != [] && s[0].deadline <= now {
      NextFacts(s, now);
      PassNeverAddsIndex(Next(s), now, k);
    }
  }

  /** A due periodic timer stays scheduled: after the pass some timer holds its
      index, with its period, a deadline later than both its old deadline and
      `now`, and at most one period past `now`. */
  lemma PassReschedulesPeriodic(s: seq<Entry>, now: int, e: Entry)
    requires WellFormed(s) && e in s && e.deadline <= now && e.period != Once
    ensures exists x :: x in Pass(s, now).0 && x.index == e.index && x.period == e.period
              && x.deadline > now && x.deadline > e.deadline && x.deadline - Step(e.period) <= now
  {
    PassKeepsPeriodicIndex(s, now, e);
    var r := Pass(s, now).0;
    IndicesExact(r, e.index);
    var i :| 0 <= i < |r| && r[i].index == e.index;
    RescheduledEntry(s, now, e, r[i]);
  }

  /** The timers a pass leaves scheduled hold exactly the indices that were
      scheduled, less those of the due one-shot timers. */
  lemma PassIndices(s: seq<Entry>, now: int)
    requires WellFormed(s)
    ensures Indices(Pass(s, now).0)
              == Indices(s) - set e | e in s && e.deadline <= now && e.period == Once :: e.index
  {
    var r := Pass(s, now).0;
    PassShape(s, now);
    forall k | k in Indices(r)
      ensures k in Indices(s) && k !in set e | e in s && e.deadline <= now && e.period == Once :: e.index
    {
      forall e | e in s && e.deadline <= now && e.period == Once ensures e.index != k {
        PassRetiresOneShot(s, now, e);
      }
    }
    forall k | k in Indices(s) && k !in set e | e in s && e.deadline <= now && e.period == Once :: e.index
      ensures k in Indices(r)
    {
      IndicesExact(s, k);
      var i :| 0 <= i < |s| && s[i].index == k;
      var e := s[i];
      if e.deadline > now {
        PassKeepsLater(s, now, e);
        var j :| 0 <= j < |r| && r[j] == e;
        IndicesExact(r, k);
      } else {
        assert e.period != Once;
        PassKeepsPeriodicIndex(s, now, e);
      }
    }
  }

  lemma {:induction false} PassKeepsPeriodicIndex(s: seq<Entry>, now: int, e: Entry)
    requires WellFormed(s) && e in s && e.deadline <= now && e.period != Once
    ensures e.index in Indices(Pass(s, now).0)
    decreases Backlog(s, now)
  {
    NextFacts(s, now);
    var n := Next(s);
    assert Pass(s, now).0 == Pass(n, now).0;
    if e == s[0] {
      var a := Advance(e);
      assert a in n by {
        assert a in multiset(n);
      }
      if a.deadline > now {
        PassKeepsLater(n, now, a);
        var r := Pass(n, now).0;
        var j :| 0 <= j < |r| && r[j] == a;
        IndicesExact(r, a.index);
      } else {
        PassKeepsPeriodicIndex(n, now, a);
      }
    } else {
      NextMember(s, now, e);
      PassKeepsPeriodicIndex(n, now, e);
    }
  }

  /** The timer that holds a due periodic timer's index after the pass. */
  lemma {:induction false} RescheduledEntry(s: seq<Entry>, now: int, e: Entry, x: Entry)
    requires WellFormed(s) && e in s && e.deadline <= now && e.period != Once
    requires x in Pass(s, now).0 && x.index == e.index
    ensures x.period == e.period
    ensures x.deadline > now && x.deadline > e.deadline
    ensures x.deadline - Step(e.period) <= now
    decreases Backlog(s, now)
  {
    NextFacts(s, now);
    var n := Next(s);
    assert Pass(s, now).0 == Pass(n, now).0;
    PassShape(n, now);
    if e == s[0] {
      var a := Advance(e);
      assert a in n by {
        assert a in multiset(n);
      }
      if a.deadline > now {
        PassKeepsLater(n, now, a);
        UniqueIndexEntry(Pass(n, now).0, a, x);
      } else {
        RescheduledEntry(n, now, a, x);
      }
    } else {
      NextMember(s, now, e);
      RescheduledEntry(n, now, e, x);
    }
  }

  lemma UniqueIndexEntry(s: seq<Entry>, a: Entry, b: Entry)
    requires UniqueIndices(s) && a in s && b in s && a.index == b.index
    ensures a == b
  {
  }

  /** The scheduled set after the `Time` field of timer `k` was set to `t`:
      that timer's entry carries the new period, nothing else changes. */
  function Retime(s: seq<Entry>, k: int, t: int32): (r: seq<Entry>)
    ensures |r| == |s|
    ensures forall i :: 0 <= i < |s| ==> r[i].deadline == s[i].deadline && r[i].index == s[i].index
    ensures forall i :: 0 <= i < |s| ==> r[i].period == if s[i].index == k then t else s[i].period
  {
    if s == [] then []
    else [if s[0].index == k then s[0].(period := t) else s[0]] + Retime(s[1..], k, t)
  }

  /** Changing a period moves no timer: the set stays well formed, holds the
      same timers in the same order and with the same deadlines, and only the
      changed timer's next rescheduling differs. */
  lemma {:induction false} RetimeKeeps(s: seq<Entry>, k: int, t: int32)
    requires WellFormed(s)
    ensures WellFormed(Retime(s, k, t)) && Indices(Retime(s, k, t)) == Indices(s)
    ensures forall e :: e in s && e.index != k ==> e in Retime(s, k, t)
  {
    var r := Retime(s, k, t);
    assert Sorted(r) by {
      forall i, j | 0 <= i < j < |r| ensures Before(r[i], r[j]) {
        assert Before(s[i], s[j]);
      }
    }
    assert UniqueIndices(r) by {
      forall i, j | 0 <= i < j < |r| ensures r[i].index != r[j].index {
        assert s[i].index != s[j].index;
      }
    }
    forall x ensures x in Indices(r) <==> x in Indices(s) {
      IndicesExact(r, x);
      IndicesExact(s, x);
    }
    forall e | e in s && e.index != k ensures e in r {
      var i :| 0 <= i < |s| && s[i] == e;
      assert r[i] == e;
    }
  }

  /** A due timer whose period was set to `t` since it was scheduled is
      rescheduled by the next pass with period `t`, at most one step of `t`
      after `now`. */
  lemma RetimedFires(s: seq<Entry>, k: int, t: int32, now: int, e: Entry)
    requires WellFormed(s) && e in s && e.index == k && e.deadline <= now && t != Once
    ensures exists x :: x in Pass(Retime(s, k, t), now).0 && x.index == k && x.period == t
              && x.deadline > now && x.deadline - Step(t) <= now
  {
    RetimeKeeps(s, k, t);
    var i :| 0 <= i < |s| && s[i] == e;
    var r := Retime(s, k, t);
    assert r[i] in r;
    PassReschedulesPeriodic(r, now, r[i]);
  }

  // ---------------------------------------------------------------------------
  // The heap: clocks and the wheel

  /** The entry a scheduled clock occupies in the sorted set. */
  function EntryOf(c: Clock): Entry
    reads c
  {
    Entry(c.elapsed, c.index, c.time)
  }

  lemma SpliceAt<T>(a: seq<T>, p: nat, x: T)
    requires p <= |a|
    ensures forall i :: 0 <= i < p ==> (a[..p] + [x] + a[p..])[i] == a[i]
    ensures (a[..p] + [x] + a[p..])[p] == x
    ensures forall i :: p < i <= |a| ==> (a[..p] + [x] + a[p..])[i] == a[i - 1]
  {
  }

  lemma DeleteAt<T>(a: seq<T>, p: nat)
    requires p < |a|
    ensures forall i :: 0 <= i < p ==> (a[..p] + a[p + 1..])[i] == a[i]
    ensures forall i :: p < i < |a| ==> (a[..p] + a[p + 1..])[i - 1] == a[i]
  {
  }

  /** Where `SortedDictionary.Add` puts clock `c` among the sorted clocks `cs`:
      after every clock the comparer does not put after `c`. */
  function AddPos(cs: seq<Clock>, c: Clock): (p: nat)
    reads cs, c
    ensures p <= |cs|
  {
    if cs == [] || Before(EntryOf(c), EntryOf(cs[0])) then 0 else 1 + AddPos(cs[1..], c)
  }

  /** The clocks `cs`, all among `all`, hold the entries `s` position by position. */
  ghost predicate Holds(cs: seq<Clock>, s: seq<Entry>, all: set<Clock>)
    reads all
  {
    |cs| == |s| && forall i :: 0 <= i < |cs| ==> cs[i] in all && EntryOf(cs[i]) == s[i]
  }

  /** Putting a clock at position `p` puts its entry at the same position. */
  lemma HoldsSplice(cs: seq<Clock>, s: seq<Entry>, all: set<Clock>, p: nat, c: Clock)
    requires Holds(cs, s, all) && c in all && p <= |cs|
    ensures Holds(cs[..p] + [c] + cs[p..], s[..p] + [EntryOf(c)] + s[p..], all)
  {
    SpliceAt(cs, p, c);
    SpliceAt(s, p, EntryOf(c));
  }

  /** Taking out the clock at position `p` takes out the entry at that position. */
  lemma HoldsDelete(cs: seq<Clock>, s: seq<Entry>, all: set<Clock>, p: nat)
    requires Holds(cs, s, all) && p < |cs|
    ensures Holds(cs[..p] + cs[p + 1..], s[..p] + s[p + 1..], all)
  {
    DeleteAt(cs, p);
    DeleteAt(s, p);
  }

  /** A clock carries the index of the entry it holds. */
  lemma HoldsIndex(cs: seq<Clock>, s: seq<Entry>, all: set<Clock>)
    requires Holds(cs, s, all)
    ensures forall i :: 0 <= i < |cs| ==> cs[i].index == s[i].index
  {
  }

  /** Searching the clocks finds the place `Insert` gives the clock's entry. */
  lemma {:induction false} AddPosAgrees(cs: seq<Clock>, s: seq<Entry>, all: set<Clock>, c: Clock)
    requires Holds(cs, s, all)
    ensures AddPos(cs, c) == InsertPos(s, EntryOf(c))
  {
    if cs != [] {
      AddPosAgrees(cs[1..], s[1..], all, c);
    }
  }

  /** Where `SortedDictionary.Remove` finds the clock with index `k` among `cs`,
      or `|cs|` if there is none. */
  function RemovePos(cs: seq<Clock>, k: int): (p: nat)
    ensures p <= |cs|
  {
    if cs == [] || cs[0].index == k then 0 else 1 + RemovePos(cs[1..], k)
  }

  lemma {:induction false} RemovePosAgrees(cs: seq<Clock>, s: seq<Entry>, all: set<Clock>, k: int)
    requires Holds(cs, s, all)
    ensures RemovePos(cs, k) == IndexPos(s, k)
  {
    if cs != [] {
      RemovePosAgrees(cs[1..], s[1..], all, k);
    }
  }

  /** Taking out the first entry of a well-formed set is dropping the head. */
  lemma {:induction false} RemoveHead(s: seq<Entry>)
    requires WellFormed(s) && s != []
    ensures Remove(s, s[0].index) == s[1..]
  {
    TailWellFormed(s);
  }

  /** The static state of Clock.cs: the creation counter `total` and the
      `SortedDictionary` of running clocks, as the sequence `clocks` in comparer
      order. `entries` is what the sorted set holds, read position by position
      from the clocks' fields, and `all` is every clock created so far. */
  class Wheel {
    var total: int
    var clocks: seq<Clock>
    ghost var entries: seq<Entry>
    /** The indices of the clocks in the set. */
    ghost var running: set<int>
    ghost var all: set<Clock>
    /** The clock each index was handed to. */
    ghost var owner: map<int, Clock>

    /** The sorted set and the clocks in it agree, and indices are distinct
        and handed out by the counter. */
    ghost predicate Sound()
      reads this, all
    {
      && total >= 0
      && (forall c {:trigger c in all} :: c in all ==> 0 < c.index <= total)
      && (forall c {:trigger c in all} :: c in all ==> c.index in owner && owner[c.index] == c)
      && Holds(clocks, entries, all)
      && WellFormed(entries)
      && running == Indices(entries)
    }

    /** In addition, a clock is marked running exactly when it is in the set,
        and a running clock's deadline is not negative. */
    ghost predicate Valid()
      reads this, all
    {
      && Sound()
      && (forall c {:trigger c in all} :: c in all ==> (c.elapsed != -1 <==> c.index in running))
      && (forall c {:trigger c in all} :: c in all && c.elapsed != -1 ==> c.elapsed >= 0)
    }

    constructor ()
      ensures Valid() && total == 0 && clocks == [] && entries == [] && all == {}
    {
      total := 0;
      clocks := [];
      entries := [];
      running := {};
      all := {};
      owner := map[];
    }

    /** No clock in the set carries an index that is not among the entries. */
    lemma Absent(k: int)
      requires Sound() && k !in Indices(entries)
      ensures forall i :: 0 <= i < |clocks| ==> clocks[i].index != k
    {
      IndicesExact(entries, k);
      HoldsIndex(clocks, entries, all);
    }

    /** No entry carries an index the counter has not handed out yet. */
    lemma Fresh(k: int)
      requires Sound() && k > total
      ensures k !in Indices(entries)
    {
      IndicesExact(entries, k);
      forall i | 0 <= i < |entries| ensures entries[i].index != k {
        assert clocks[i] in all;
      }
    }

    /** `clocks.Add(c, true)`: puts `c` into the sorted set at its place. */
    method AddClock(c: Clock)
      requires Sound() && c in all && c.index !in Indices(entries)
      modifies this`clocks, this`entries, this`running
      ensures Sound()
      ensures entries == Insert(old(entries), EntryOf(c)) && running == old(running) + {c.index}
      ensures c in clocks
      ensures clocks == old(clocks[..AddPos(clocks, c)] + [c] + clocks[AddPos(clocks, c)..])
    {
      var p := AddPos(clocks, c);
      AddPosAgrees(clocks, entries, all, c);
      InsertSplit(entries, EntryOf(c));
      InsertWellFormed(entries, EntryOf(c));
      HoldsSplice(clocks, entries, all, p, c);
      clocks, entries := clocks[..p] + [c] + clocks[p..], entries[..p] + [EntryOf(c)] + entries[p..];
      running := running + {c.index};
    }

    /** `clocks.Remove(c)`: takes `c` out of the sorted set and reports whether
        it was there. */
    method RemoveClock(c: Clock) returns (found: bool)
      requires Sound() && c in all
      modifies this`clocks, this`entries, this`running
      ensures Sound()
      ensures found <==> c.index in Indices(old(entries))
      ensures entries == Remove(old(entries), c.index) && running == old(running) - {c.index}
      ensures forall i :: 0 <= i < |clocks| ==> clocks[i].index != c.index
    {
      var p := RemovePos(clocks, c.index);
      RemovePosAgrees(clocks, entries, all, c.index);
      RemoveSplit(entries, c.index);
      RemoveWellFormed(entries, c.index);
      IndicesExact(entries, c.index);
      HoldsIndex(clocks, entries, all);
      found := p < |clocks|;
      if found {
        UniqueIndexAt(entries, p);
        HoldsDelete(clocks, entries, all, p);
        DeleteAt(clocks, p);
        clocks, entries := clocks[..p] + clocks[p + 1..], entries[..p] + entries[p + 1..];
        running := running - {c.index};
      }
      Absent(c.index);
    }

    /** Changing the mark of a clock outside the set keeps the set sound. */
    twostate lemma Remarked(c: Clock)
      requires old(Sound()) && unchanged(this) && c in all
      requires forall i :: 0 <= i < |clocks| ==> clocks[i] != c
      requires forall o {:trigger o in all} :: o in all && o != c ==> unchanged(o)
      ensures Sound()
    {
      assert forall i :: 0 <= i < |clocks| ==> EntryOf(clocks[i]) == old(EntryOf(clocks[i]));
    }

    /** Clock `c` is marked running exactly when it is in the set, and no other
        clock changed its mark or left or joined the set. */
    twostate lemma Remarks(c: Clock)
      requires old(Valid()) && Sound() && c in all && all == old(all) && owner == old(owner)
      requires forall o {:trigger o in all} :: o in all && o != c ==> o.elapsed == old(o.elapsed)
      requires running == old(running) - {c.index} + (if c.elapsed != -1 then {c.index} else {})
      requires c.elapsed != -1 ==> c.elapsed >= 0
      ensures Valid()
    {
      forall d {:trigger d in all} | d in all && d != c
        ensures (d.elapsed != -1 <==> d.index in running) && (d.elapsed != -1 ==> d.elapsed >= 0)
      {
        assert owner[d.index] == d;
      }
    }

    /** The firing of the earliest clock `c` in `Clock.Update` (Clock.cs:86-95):
        it leaves the set and, when it is periodic, is put back one period later;
        a one-shot clock is marked not running. */
    method Fire(c: Clock)
      requires Valid() && clocks != [] && clocks[0] == c
      modifies this`clocks, this`entries, this`running, c`elapsed
      ensures Valid()
      ensures old(entries) != [] && entries == Next(old(entries))
      ensures running <= old(running)
    {
      ghost var s := entries;
      assert s[0] == EntryOf(c);
      RemoveHead(s);
      var _ := RemoveClock(c);
      assert entries == s[1..];
      assert forall i :: 0 <= i < |clocks| ==> clocks[i] != c;
      label removed:
      if c.time != Once {
        c.elapsed := c.elapsed + Step(c.time);
        Remarked@removed(c);
        assert EntryOf(c) == Advance(s[0]);
        AddClock(c);
      } else {
        c.elapsed := -1;
        Remarked@removed(c);
      }
      Remarks(c);
    }

    /** The earliest clock is later than `now`: a pass fires nothing. */
    lemma Later(now: int)
      requires Valid() && clocks != [] && clocks[0].elapsed > now
      ensures Pass(entries, now) == (entries, [])
    {
      assert entries[0] == EntryOf(clocks[0]);
    }

    /** One turn of the loop in `Clock.Update` (Clock.cs:74-104): when the
        earliest clock is due it fires, and it, its entry and its callback are
        appended to what the pass has done so far; otherwise the pass is `done`. */
    method Turn(now: int, failing: set<nat>, ghost start: seq<Entry>,
                fired: seq<Entry>, firing: seq<Clock>, calls: seq<Invocation>, errors: seq<nat>)
      returns (done: bool, fired': seq<Entry>, firing': seq<Clock>, calls': seq<Invocation>, errors': seq<nat>)
      requires Valid() && WellFormed(start)
      requires Pass(start, now).0 == Pass(entries, now).0
      requires Pass(start, now).1 == fired + Pass(entries, now).1
      requires |firing| == |fired| == |calls|
      requires forall i :: 0 <= i < |fired| ==> firing[i] in all && firing[i].index == fired[i].index
      requires forall i :: 0 <= i < |fired| ==> calls[i] == firing[i].Timeout()
      requires errors == FailedIds(calls, failing)
      modifies this`clocks, this`entries, this`running, all`elapsed
      ensures Valid() && running <= old(running)
      ensures done ==> entries == old(entries) && Pass(entries, now) == (entries, [])
      ensures !done ==> Backlog(entries, now) < old(Backlog(entries, now))
      ensures Pass(start, now).0 == Pass(entries, now).0
      ensures Pass(start, now).1 == fired' + Pass(entries, now).1
      ensures |firing'| == |fired'| == |calls'|
      ensures forall i :: 0 <= i < |fired'| ==> firing'[i] in all && firing'[i].index == fired'[i].index
      ensures forall i :: 0 <= i < |fired'| ==> calls'[i] == firing'[i].Timeout()
      ensures errors' == FailedIds(calls', failing)
    {
      fired', firing', calls', errors' := fired, firing, calls, errors;
      if clocks == [] {
        return true, fired', firing', calls', errors';
      }
      var c := clocks[0];
      if c.elapsed > now {
        Later(now);
        return true, fired', firing', calls', errors';
      }
      done := false;
      ghost var s := entries;
      assert s[0] == EntryOf(c);
      PassStep(s, now);
      var e := EntryOf(c);
      Fire(c);
      var call := c.Timeout();
      FailedIdsAppend(calls, call, failing);
      AppendAssoc(fired, [e], Pass(entries, now).1);
      fired', firing', calls' := fired + [e], firing + [c], calls + [call];
      if call.id in failing {
        errors' := errors + [call.id];
      }
    }

    /** `Clock.Update(error)`: fires every due timer in (deadline, index) order.
        `fired` lists the entries as they fired and `firing` the clocks they
        belong to; `calls` are the callbacks run, and `errors` the callbacks among
        them that throw (those in `failing`), whose exceptions go to the error
        callback while the pass goes on. Callbacks are opaque here: they do not
        start or stop clocks. */
    method Update(now: int, failing: set<nat>)
      returns (fired: seq<Entry>, firing: seq<Clock>, calls: seq<Invocation>, errors: seq<nat>)
      requires Valid()
      modifies this`clocks, this`entries, this`running, all`elapsed
      ensures Valid() && all == old(all) && total == old(total)
      ensures entries == Pass(old(entries), now).0
      ensures fired == Pass(old(entries), now).1
      ensures |firing| == |fired| == |calls|
      ensures forall i :: 0 <= i < |fired| ==> firing[i] in all && firing[i].index == fired[i].index
      ensures forall i :: 0 <= i < |fired| ==> calls[i] == firing[i].Timeout()
      ensures errors == FailedIds(calls, failing)
      ensures forall c {:trigger c in all} :: c in all && old(c.elapsed) == -1 ==> c.elapsed == -1
    {
      fired, firing, calls, errors := [], [], [], [];
      var done := false;
      while !done
        invariant Valid() && all == old(all) && total == old(total)
        invariant running <= old(running)
        invariant done ==> Pass(entries, now) == (entries, [])
        invariant Pass(old(entries), now).0 == Pass(entries, now).0
        invariant Pass(old(entries), now).1 == fired + Pass(entries, now).1
        invariant |firing| == |fired| == |calls|
        invariant forall i :: 0 <= i < |fired| ==> firing[i] in all && firing[i].index == fired[i].index
        invariant forall i :: 0 <= i < |fired| ==> calls[i] == firing[i].Timeout()
        invariant errors == FailedIds(calls, failing)
        decreases Backlog(entries, now) + (if done then 0 else 1)
      {
        done, fired, firing, calls, errors := Turn(now, failing, old(entries), fired, firing, calls, errors);
      }
      StaysStopped();
    }

    /** A new inert clock `c` that takes the next index keeps the wheel valid. */
    twostate lemma Joined(new c: Clock)
      requires old(Valid()) && fresh(c) && c.elapsed == -1
      requires total == old(total) + 1 && c.index == total && c.index !in running
      requires all == old(all) + {c} && owner == old(owner)[c.index := c]
      requires clocks == old(clocks) && entries == old(entries) && running == old(running)
      requires forall o {:trigger o in old(all)} :: o in old(all) ==> unchanged(o)
      ensures Valid()
      ensures forall o {:trigger o in old(all)} :: o in old(all) ==> o.index < c.index
    {
      assert forall i :: 0 <= i < |clocks| ==> clocks[i] in old(all) && EntryOf(clocks[i]) == old(EntryOf(clocks[i]));
    }

    /** A clock that was not running is still not running once the set lost
        indices and gained none. */
    twostate lemma StaysStopped()
      requires old(Valid()) && Valid() && all == old(all) && owner == old(owner)
      requires running <= old(running)
      ensures forall c {:trigger c in all} :: c in all && old(c.elapsed) == -1 ==> c.elapsed == -1
    {
    }
  }

  /** A pass over a set whose head is due fires the head first and goes on
      with the set that firing leaves. */
  lemma {:induction false} PassStep(s: seq<Entry>, now: int)
    requires WellFormed(s) && s != [] && s[0].deadline <= now
    ensures WellFormed(Next(s)) && Backlog(Next(s), now) < Backlog(s, now)
    ensures Pass(s, now) == (Pass(Next(s), now).0, [s[0]] + Pass(Next(s), now).1)
  {
    NextFacts(s, now);
  }

  /** Two entries of a set with distinct indices share no index. */
  lemma UniqueIndexAt(s: seq<Entry>, p: nat)
    requires UniqueIndices(s) && p < |s|
    ensures forall i :: 0 <= i < |s| && i != p ==> s[i].index != s[p].index
  {
  }

  /** The callbacks among `calls` that throw, in call order. */
  function FailedIds(calls: seq<Invocation>, failing: set<nat>): (r: seq<nat>)
    ensures |r| <= |calls|
    ensures forall i :: 0 <= i < |r| ==> r[i] in failing
  {
    if calls == [] then []
    else
      var rest := FailedIds(calls[1..], failing);
      if calls[0].id in failing then [calls[0].id] + rest else rest
  }

  lemma {:induction false} FailedIdsAppend(calls: seq<Invocation>, c: Invocation, failing: set<nat>)
    ensures FailedIds(calls + [c], failing)
         == FailedIds(calls, failing) + (if c.id in failing then [c.id] else [])
  {
    if calls != [] {
      assert (calls + [c])[1..] == calls[1..] + [c];
      FailedIdsAppend(calls[1..], c, failing);
    } else {
      assert [c][1..] == [];
    }
  }

  class Clock {
    /** Creation order: strictly larger than the index of every earlier clock. */
    const index: int
    /** The deadline in microseconds, or -1 when the clock is not running. */
    var elapsed: int
    /** The public `Time` field: the period in milliseconds, or `Once`. */
    var time: int32
    const handler: Handler

    /** `new Clock(callback)` (Clock.cs:115-132): takes the next index from the
        counter and is inert. */
    constructor (w: Wheel, handler: Handler)
      requires w.Valid()
      modifies w`total, w`all, w`owner
      ensures w.Valid()
      ensures w.total == old(w.total) + 1 && index == w.total
      ensures forall c {:trigger c in old(w.all)} :: c in old(w.all) ==> c.index < index
      ensures w.all == old(w.all) + {this} && w.clocks == old(w.clocks) && w.entries == old(w.entries)
      ensures elapsed == -1 && time == Once && !IsRunning()
      ensures this.handler == handler
    {
      index := w.total + 1;
      elapsed := -1;
      time := Once;
      this.handler := handler;
      new;
      w.Fresh(index);
      w.total := w.total + 1;
      w.all := w.all + {this};
      w.owner := w.owner[index := this];
      w.Joined(this);
    }

    predicate IsRunning()
      reads this
    {
      elapsed != -1
    }

    /** `IsRunning` (Clock.cs:134-137) reports exactly whether the clock is in the
        wheel's sorted set. */
    method Running(w: Wheel) returns (r: bool)
      requires w.Valid() && this in w.all
      ensures r <==> this in w.clocks
      ensures r <==> EntryOf(this) in w.entries
    {
      r := elapsed != -1;
      IndicesExact(w.entries, index);
      if r {
        ghost var i :| 0 <= i < |w.entries| && w.entries[i].index == index;
        assert w.clocks[i] == this;
      } else {
        w.Absent(index);
      }
    }

    /** `Stop()` (Clock.cs:151-158). */
    method Stop(w: Wheel)
      requires w.Valid() && this in w.all
      modifies w`clocks, w`entries, w`running, this`elapsed
      ensures w.Valid()
      ensures elapsed == -1
      ensures w.entries == Remove(old(w.entries), index) && w.running == old(w.running) - {index}
      ensures old(elapsed) == -1 ==> w.clocks == old(w.clocks) && w.entries == old(w.entries)
    {
      if elapsed != -1 {
        var found := w.RemoveClock(this);
        if found {
          elapsed := -1;
        }
      }
    }

    /** An assignment to the public `Time` field (Clock.cs:112): a running
        clock keeps its place in the set, and the pass that next fires it
        reschedules it with the new period (Clock.cs:87-89). */
    method SetTime(w: Wheel, t: int32)
      requires w.Valid() && this in w.all
      modifies this`time, w`entries
      ensures w.Valid() && time == t
      ensures w.entries == Retime(old(w.entries), index, t)
    {
      RetimeKeeps(w.entries, index, t);
      ghost var s := Retime(w.entries, index, t);
      forall i | 0 <= i < |w.clocks| ensures w.clocks[i] != this ==> w.clocks[i].index != index {
        assert w.clocks[i] in w.all;
      }
      time := t;
      w.entries := s;
      forall i | 0 <= i < |w.clocks| ensures EntryOf(w.clocks[i]) == w.entries[i] {
      }
    }

    /** `Start(int time)` (Clock.cs:144-149): stops the clock if it runs, then
        schedules it `time` milliseconds after `now`, once. */
    method StartAfter(w: Wheel, time: int32, now: int)
      requires w.Valid() && this in w.all && now >= MinNow
      modifies w`clocks, w`entries, w`running, this`elapsed
      ensures w.Valid()
      ensures elapsed == StartDeadline(now, time) && this in w.clocks
      ensures w.entries == Insert(Remove(old(w.entries), index), EntryOf(this))
    {
      Stop(w);
      w.Absent(index);
      label stopped:
      elapsed := StartDeadline(now, time);
      w.Remarked@stopped(this);
      w.AddClock(this);
      w.Remarks(this);
    }

    /** `Start()` (Clock.cs:139-142): starts with the clock's own period, taking
        a negative period (`Once`) as zero. */
    method Start(w: Wheel, now: int)
      requires w.Valid() && this in w.all && now >= MinNow
      modifies w`clocks, w`entries, w`running, this`elapsed
      ensures w.Valid()
      ensures elapsed == StartDeadline(now, if time < 0 then 0 else time)
      ensures this in w.clocks
      ensures w.entries == Insert(Remove(old(w.entries), index), EntryOf(this))
    {
      StartAfter(w, if time < 0 then 0 else time, now);
    }

    /** `Timeout()` of Clock and Clock<T> (Clock.cs:160-166, 198-206): calls the
        callback the clock was built with, passing the clock or its value. */
    function Timeout(): (r: Invocation)
      ensures r.id == handler.id
      ensures r.arg.ClockArgument? <==> handler.OfClock?
      ensures r.arg.ValueOfClock? <==> handler.OfValue?
      ensures r.arg.ClockArgument? || r.arg.ValueOfClock? ==> r.arg.index == index
    {
      match handler
      case Plain(id) => Invoke(id, NoArgument)
      case OfClock(id) => Invoke(id, ClockArgument(index))
      case OfValue(id) => Invoke(id, ValueOfClock(index))
    }
  }
}
