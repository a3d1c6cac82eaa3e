/** The dispatcher of Loop.cs: the cross-thread action list, the polled
    operations with their pooled waiters, the recurring callbacks, the idle
    list, the event bus, and `Updater.Update`, which drains them once per frame
    in a fixed order. Callbacks are opaque identifiers: a callback whose
    identifier is in `failing` throws, and every exception caught on the loop
    thread goes to the error callback `errfn`. */
module Loops {
  import opened Common
  import Clocks

  // ---------------------------------------------------------------------------
  // Traces

  /** One step of what the loop thread does with callbacks: callback `id` ran,
      or the exception callback `id` threw was handed to `errfn`. */
  datatype Effect = Ran(id: nat) | Reported(id: nat)

  /** Callback `id` run inside a try/catch that hands its exception to
      `errfn`, the pattern of every callback the loop runs. */
  function Call(id: nat, failing: set<nat>): seq<Effect>
  {
    if id in failing then [Ran(id), Reported(id)] else [Ran(id)]
  }

  /** The callbacks `ids` run one after another, each in its own try/catch. */
  function Calls(ids: seq<nat>, failing: set<nat>): seq<Effect>
  {
    if ids == [] then [] else Call(ids[0], failing) + Calls(ids[1..], failing)
  }

  /** The callbacks that ran, in order. */
  function Runs(t: seq<Effect>): seq<nat>
  {
    if t == [] then [] else (if t[0].Ran? then [t[0].id] else []) + Runs(t[1..])
  }

  /** The callbacks whose exceptions reached `errfn`, in order. */
  function Reports(t: seq<Effect>): seq<nat>
  {
    if t == [] then [] else (if t[0].Reported? then [t[0].id] else []) + Reports(t[1..])
  }

  /** The callbacks among `ids` that throw, in order. */
  function Throwing(ids: seq<nat>, failing: set<nat>): seq<nat>
  {
    if ids == [] then [] else (if ids[0] in failing then [ids[0]] else []) + Throwing(ids[1..], failing)
  }

  lemma {:induction false} RunsAppend(a: seq<Effect>, b: seq<Effect>)
    ensures Runs(a + b) == Runs(a) + Runs(b)
    ensures Reports(a + b) == Reports(a) + Reports(b)
  {
    if a == [] {
      assert a + b == b;
    } else {
      var c := a + b;
      assert c[0] == a[0] && c[1..] == a[1..] + b;
      RunsAppend(a[1..], b);
      var r := if a[0].Ran? then [a[0].id] else [];
      var e := if a[0].Reported? then [a[0].id] else [];
      assert Runs(c) == r + (Runs(a[1..]) + Runs(b));
      assert Runs(a) == r + Runs(a[1..]);
      assert Reports(c) == e + (Reports(a[1..]) + Reports(b));
      assert Reports(a) == e + Reports(a[1..]);
    }
  }

  lemma {:induction false} CallsAppend(a: seq<nat>, b: seq<nat>, failing: set<nat>)
    ensures Calls(a + b, failing) == Calls(a, failing) + Calls(b, failing)
  {
    if a == [] {
      assert a + b == b;
    } else {
      assert (a + b)[0] == a[0] && (a + b)[1..] == a[1..] + b;
      CallsAppend(a[1..], b, failing);
    }
  }

  /** Running callbacks in try/catch runs every one of them, in order, and
      hands `errfn` exactly the exceptions of those that throw, in order. */
  lemma {:induction false} CallsRuns(ids: seq<nat>, failing: set<nat>)
    ensures Runs(Calls(ids, failing)) == ids
    ensures Reports(Calls(ids, failing)) == Throwing(ids, failing)
  {
    if ids != [] {
      CallsRuns(ids[1..], failing);
      RunsAppend(Call(ids[0], failing), Calls(ids[1..], failing));
      assert ids == [ids[0]] + ids[1..];
    }
  }

  /** The loop over a list of callbacks (Loop.cs:411-421, 436-446, 458-468):
      the callbacks run in order, each in its own try/catch. */
  method RunAll(ids: seq<nat>, failing: set<nat>) returns (effects: seq<Effect>)
    ensures effects == Calls(ids, failing)
  {
    effects := [];
    var i := 0;
    while i < |ids|
      invariant 0 <= i <= |ids| && effects == Calls(ids[..i], failing)
    {
      CallsSnoc(ids[..i], ids[i], failing);
      assert ids[..i + 1] == ids[..i] + [ids[i]];
      effects := effects + Call(ids[i], failing);
      i := i + 1;
    }
    assert ids[..i] == ids;
  }

  /** The effects of handing the exceptions `ids` to `errfn` one by one. */
  function Reporting(ids: seq<nat>): (r: seq<Effect>)
    ensures |r| == |ids| && forall i :: 0 <= i < |ids| ==> r[i] == Reported(ids[i])
  {
    if ids == [] then [] else [Reported(ids[0])] + Reporting(ids[1..])
  }

  lemma {:induction false} ReportingReports(ids: seq<nat>)
    ensures Runs(Reporting(ids)) == [] && Reports(Reporting(ids)) == ids
  {
    if ids != [] {
      ReportingReports(ids[1..]);
      RunsAppend([Reported(ids[0])], Reporting(ids[1..]));
      assert ids == [ids[0]] + ids[1..];
    }
  }

  // ---------------------------------------------------------------------------
  // Distinct sequences

  predicate NoDup<T(==)>(s: seq<T>)
  {
    forall i, j :: 0 <= i < j < |s| ==> s[i] != s[j]
  }

  lemma {:induction false} NoDupCounts<T>(s: seq<T>)
    ensures NoDup(s) <==> forall x :: multiset(s)[x] <= 1
  {
    if s != [] {
      NoDupCounts(s[1..]);
      assert s == [s[0]] + s[1..];
      if NoDup(s) {
        assert NoDup(s[1..]) by {
          forall i, j | 0 <= i < j < |s[1..]| ensures s[1..][i] != s[1..][j] {
            assert s[1..][i] == s[i + 1] && s[1..][j] == s[j + 1];
          }
        }
        assert s[0] !in s[1..] by {
          forall j | 0 <= j < |s[1..]| ensures s[1..][j] != s[0] {
            assert s[1..][j] == s[j + 1];
          }
        }
      } else {
        var i, j :| 0 <= i < j < |s| && s[i] == s[j];
        if i == 0 {
          assert s[1..][j - 1] == s[0];
          assert multiset(s)[s[0]] == 1 + multiset(s[1..])[s[0]];
        } else {
          assert s[1..][i - 1] == s[1..][j - 1];
          assert !NoDup(s[1..]);
          var x :| multiset(s[1..])[x] > 1;
          assert multiset(s)[x] >= multiset(s[1..])[x];
        }
      }
    }
  }

  /** Elements drawn without repetition from a sequence without repetition are
      themselves without repetition. */
  lemma NoDupShare<T>(a: seq<T>, b: seq<T>, c: seq<T>)
    requires multiset(a) + multiset(b) == multiset(c) && NoDup(c)
    ensures NoDup(a) && NoDup(b)
    ensures forall i, j :: 0 <= i < |a| && 0 <= j < |b| ==> a[i] != b[j]
  {
    NoDupCounts(a);
    NoDupCounts(b);
    NoDupCounts(c);
    forall x ensures multiset(a)[x] <= 1 && multiset(b)[x] <= 1 {
      assert multiset(c)[x] == multiset(a)[x] + multiset(b)[x];
    }
    forall i, j | 0 <= i < |a| && 0 <= j < |b| ensures a[i] != b[j] {
      assert a[i] in multiset(a) && b[j] in multiset(b);
      assert multiset(c)[a[i]] == multiset(a)[a[i]] + multiset(b)[a[i]];
    }
  }

  // ---------------------------------------------------------------------------
  // Polled operations

  /** `AsyncWaiter` (`Untyped`) or `AsyncWaiter<T>` for the type `t`. */
  datatype Kind = Untyped | Typed(t: nat)

  /** An `AsyncOperation`: its identity and the types it is an instance of. */
  datatype Operation = Operation(id: nat, types: set<nat>)

  /** An element of `operations`: the operation and the waiter whose `Emit` is
      registered for it, or the `(null, null)` pair `Cancel` leaves. */
  datatype Slot = Pending(op: Operation, waiter: Waiter) | Cancelled

  /** The pending slots whose operation is not done, in order. */
  function Keeps(ops: seq<Slot>, done: set<nat>): seq<Slot>
  {
    if ops == [] then []
    else (if ops[0].Pending? && ops[0].op.id !in done then [ops[0]] else []) + Keeps(ops[1..], done)
  }

  /** The pending slots whose operation is done, in order. */
  function Fires(ops: seq<Slot>, done: set<nat>): seq<Slot>
  {
    if ops == [] then []
    else (if ops[0].Pending? && ops[0].op.id in done then [ops[0]] else []) + Fires(ops[1..], done)
  }

  /** The partition loop of the tick (Loop.cs:362-369), slot by slot from the
      front: a slot whose operation is not done is kept, a done one with a
      callback is set aside to fire, and a cancelled one is dropped. */
  function Partition(ops: seq<Slot>, done: set<nat>): (seq<Slot>, seq<Slot>)
  {
    if ops == [] then ([], [])
    else
      var r := Partition(ops[..|ops| - 1], done);
      var s := ops[|ops| - 1];
      if s.Pending? && s.op.id !in done then (r.0 + [s], r.1)
      else if s.Pending? then (r.0, r.1 + [s])
      else r
  }

  lemma {:induction false} FiltersAppend(a: seq<Slot>, s: Slot, done: set<nat>)
    ensures Keeps(a + [s], done) == Keeps(a, done) + (if s.Pending? && s.op.id !in done then [s] else [])
    ensures Fires(a + [s], done) == Fires(a, done) + (if s.Pending? && s.op.id in done then [s] else [])
  {
    if a == [] {
      assert a + [s] == [s] && [s][1..] == [];
    } else {
      var c := a + [s];
      assert c[0] == a[0] && c[1..] == a[1..] + [s];
      FiltersAppend(a[1..], s, done);
      var k := if a[0].Pending? && a[0].op.id !in done then [a[0]] else [];
      var f := if a[0].Pending? && a[0].op.id in done then [a[0]] else [];
      assert Keeps(c, done) == k + Keeps(c[1..], done);
      assert Keeps(a, done) == k + Keeps(a[1..], done);
      assert Fires(c, done) == f + Fires(c[1..], done);
      assert Fires(a, done) == f + Fires(a[1..], done);
    }
  }

  /** The partition loop keeps exactly the waiting slots and fires exactly the
      done ones, each group in registration order. */
  lemma {:induction false} PartitionFilters(ops: seq<Slot>, done: set<nat>)
    ensures Partition(ops, done) == (Keeps(ops, done), Fires(ops, done))
  {
    if ops != [] {
      var a, s := ops[..|ops| - 1], ops[|ops| - 1];
      assert ops == a + [s];
      PartitionFilters(a, done);
      FiltersAppend(a, s, done);
      assert Keeps(a, done) + [] == Keeps(a, done) && Fires(a, done) + [] == Fires(a, done);
    }
  }

  /** What the partition keeps and what it fires. */
  lemma {:induction false} FiltersMembers(ops: seq<Slot>, done: set<nat>, s: Slot)
    ensures s in Keeps(ops, done) <==> s in ops && s.Pending? && s.op.id !in done
    ensures s in Fires(ops, done) <==> s in ops && s.Pending? && s.op.id in done
  {
    if ops != [] {
      FiltersMembers(ops[1..], done, s);
      assert ops == [ops[0]] + ops[1..];
    }
  }

  /** The waiters of the pending slots, in order. */
  function Waiters(ops: seq<Slot>): seq<Waiter>
  {
    if ops == [] then []
    else (if ops[0].Pending? then [ops[0].waiter] else []) + Waiters(ops[1..])
  }

  /** Every waiter of a pending slot is kept or fired, and none is both. */
  lemma {:induction false} FiltersWaiters(ops: seq<Slot>, done: set<nat>)
    ensures multiset(Waiters(Keeps(ops, done))) + multiset(Waiters(Fires(ops, done)))
         == multiset(Waiters(ops))
  {
    if ops != [] {
      var x, t := ops[0], ops[1..];
      FiltersWaiters(t, done);
      if x.Pending? {
        assert Waiters(ops) == [x.waiter] + Waiters(t);
        assert Waiters([x]) == [x.waiter] by {
          assert [x][1..] == [];
        }
        if x.op.id !in done {
          assert Keeps(ops, done) == [x] + Keeps(t, done);
          assert Fires(ops, done) == [] + Fires(t, done) == Fires(t, done);
          WaitersAppend([x], Keeps(t, done));
        } else {
          assert Fires(ops, done) == [x] + Fires(t, done);
          assert Keeps(ops, done) == [] + Keeps(t, done) == Keeps(t, done);
          WaitersAppend([x], Fires(t, done));
        }
      } else {
        assert Waiters(ops) == [] + Waiters(t) == Waiters(t);
        assert Keeps(ops, done) == [] + Keeps(t, done) == Keeps(t, done);
        assert Fires(ops, done) == [] + Fires(t, done) == Fires(t, done);
      }
    }
  }

  lemma {:induction false} WaitersAppend(a: seq<Slot>, b: seq<Slot>)
    ensures Waiters(a + b) == Waiters(a) + Waiters(b)
  {
    if a == [] {
      assert a + b == b;
    } else {
      assert (a + b)[0] == a[0] && (a + b)[1..] == a[1..] + b;
      WaitersAppend(a[1..], b);
    }
  }

  /** A sequence of pending slots lists its waiters position by position. */
  lemma {:induction false} WaitersOfPending(ops: seq<Slot>)
    requires forall i :: 0 <= i < |ops| ==> ops[i].Pending?
    ensures |Waiters(ops)| == |ops| && forall i :: 0 <= i < |ops| ==> Waiters(ops)[i] == ops[i].waiter
  {
    if ops != [] {
      WaitersOfPending(ops[1..]);
    }
  }

  /** The waiter of every pending slot is among the slots' waiters. */
  lemma {:induction false} WaitersHas(ops: seq<Slot>)
    ensures forall i :: 0 <= i < |ops| && ops[i].Pending? ==> ops[i].waiter in Waiters(ops)
  {
    if ops != [] {
      WaitersHas(ops[1..]);
      assert forall i :: 0 < i < |ops| ==> ops[i] == ops[1..][i - 1];
    }
  }

  /** What one fired waiter does: its operation, the waiter, and the action it
      held when the tick began. */
  datatype Job = Job(op: Operation, waiter: Waiter, action: nat)

  /** An untyped waiter always calls its action; `AsyncWaiter<T>` only when the
      operation is a `T` (Loop.cs:194-196). */
  predicate Accepts(kind: Kind, op: Operation)
  {
    kind.Untyped? || kind.t in op.types
  }

  /** The waiter's action runs and throws, so `Emit` stops before it clears the
      action and goes back to its pool. */
  predicate Throws(j: Job, failing: set<nat>)
  {
    Accepts(j.waiter.kind, j.op) && j.action in failing
  }

  /** The action a fired waiter holds afterwards: none once `Emit` has run to
      the end, its own when the action threw. */
  function Holding(j: Job, failing: set<nat>): Option<nat>
  {
    if Throws(j, failing) then Some(j.action) else None
  }

  /** The trace of firing one waiter inside the tick's try/catch. */
  function Emission(j: Job, failing: set<nat>): seq<Effect>
  {
    if Accepts(j.waiter.kind, j.op) then Call(j.action, failing) else []
  }

  /** The trace of firing the waiters `jobs` in order (Loop.cs:374-385). */
  function Emissions(jobs: seq<Job>, failing: set<nat>): seq<Effect>
  {
    if jobs == [] then [] else Emission(jobs[0], failing) + Emissions(jobs[1..], failing)
  }

  lemma {:induction false} EmissionsAppend(jobs: seq<Job>, j: Job, failing: set<nat>)
    ensures Emissions(jobs + [j], failing) == Emissions(jobs, failing) + Emission(j, failing)
  {
    if jobs == [] {
      assert jobs + [j] == [j] && [j][1..] == [];
    } else {
      assert (jobs + [j])[0] == jobs[0] && (jobs + [j])[1..] == jobs[1..] + [j];
      EmissionsAppend(jobs[1..], j, failing);
    }
  }

  /** The actions the waiters `jobs` call, in order. */
  function Accepted(jobs: seq<Job>): seq<nat>
  {
    if jobs == [] then []
    else (if Accepts(jobs[0].waiter.kind, jobs[0].op) then [jobs[0].action] else []) + Accepted(jobs[1..])
  }

  /** Firing waiters runs the actions of those whose operation has the type they
      wait for, in order, each in its own try/catch. */
  lemma {:induction false} EmissionsCalls(jobs: seq<Job>, failing: set<nat>)
    ensures Emissions(jobs, failing) == Calls(Accepted(jobs), failing)
  {
    if jobs != [] {
      EmissionsCalls(jobs[1..], failing);
      var h := if Accepts(jobs[0].waiter.kind, jobs[0].op) then [jobs[0].action] else [];
      CallsAppend(h, Accepted(jobs[1..]), failing);
      if h != [] {
        assert Calls(h, failing) == Call(jobs[0].action, failing) by {
          assert h[1..] == [];
        }
      }
    }
  }

  function Pool(pools: map<Kind, seq<Waiter>>, k: Kind): seq<Waiter>
  {
    if k in pools then pools[k] else []
  }

  /** `stack.Push(this)` on the pool of the waiter's kind. */
  function Push(pools: map<Kind, seq<Waiter>>, w: Waiter): map<Kind, seq<Waiter>>
  {
    pools[w.kind := Pool(pools, w.kind) + [w]]
  }

  /** The pools after firing `jobs` one by one: a waiter whose action did not
      throw is pushed onto the pool of its kind. */
  function Refill(pools: map<Kind, seq<Waiter>>, jobs: seq<Job>, failing: set<nat>): map<Kind, seq<Waiter>>
  {
    if jobs == [] then pools
    else
      var n := |jobs| - 1;
      var p := Refill(pools, jobs[..n], failing);
      if Throws(jobs[n], failing) then p else Push(p, jobs[n].waiter)
  }

  /** Firing one more job extends the refilled pools and the emissions by
      that job's share. */
  lemma FiredOneMore(pools: map<Kind, seq<Waiter>>, jobs: seq<Job>, i: nat, failing: set<nat>,
                     before: map<Kind, seq<Waiter>>, after: map<Kind, seq<Waiter>>, effects: seq<Effect>, e: seq<Effect>)
    requires i < |jobs|
    requires before == Refill(pools, jobs[..i], failing) && effects == Emissions(jobs[..i], failing)
    requires after == if Throws(jobs[i], failing) then before else Push(before, jobs[i].waiter)
    requires e == Emission(jobs[i], failing)
    ensures after == Refill(pools, jobs[..i + 1], failing)
    ensures effects + e == Emissions(jobs[..i + 1], failing)
  {
    assert jobs[..i + 1] == jobs[..i] + [jobs[i]];
    assert jobs[..i + 1][..i] == jobs[..i];
    EmissionsAppend(jobs[..i], jobs[i], failing);
  }

  /** The waiters of kind `k` among `jobs` that go back to their pool, in order. */
  function Returned(jobs: seq<Job>, k: Kind, failing: set<nat>): seq<Waiter>
  {
    if jobs == [] then []
    else (if jobs[0].waiter.kind == k && !Throws(jobs[0], failing) then [jobs[0].waiter] else [])
         + Returned(jobs[1..], k, failing)
  }

  lemma {:induction false} ReturnedAppend(jobs: seq<Job>, j: Job, k: Kind, failing: set<nat>)
    ensures Returned(jobs + [j], k, failing) == Returned(jobs, k, failing)
      + (if j.waiter.kind == k && !Throws(j, failing) then [j.waiter] else [])
  {
    if jobs == [] {
      assert jobs + [j] == [j] && [j][1..] == [];
    } else {
      assert (jobs + [j])[0] == jobs[0] && (jobs + [j])[1..] == jobs[1..] + [j];
      ReturnedAppend(jobs[1..], j, k, failing);
    }
  }

  /** Each pool grows by exactly the waiters of its kind that did not throw,
      pushed in firing order; the waiters whose action threw are not pooled
      again. */
  lemma {:induction false} RefillPools(pools: map<Kind, seq<Waiter>>, jobs: seq<Job>, failing: set<nat>, k: Kind)
    ensures Pool(Refill(pools, jobs, failing), k) == Pool(pools, k) + Returned(jobs, k, failing)
  {
    if jobs != [] {
      var n := |jobs| - 1;
      RefillPools(pools, jobs[..n], failing, k);
      ReturnedAppend(jobs[..n], jobs[n], k, failing);
      assert jobs[..n] + [jobs[n]] == jobs;
    }
  }

  // ---------------------------------------------------------------------------
  // Recurring callbacks

  /** `always_actions`: the recurring callbacks by name, in ordinal key order. */
  type Registry = seq<(string, nat)>

  function Names(r: Registry): seq<string>
  {
    if r == [] then [] else [r[0].0] + Names(r[1..])
  }

  /** The callbacks in key order: what the tick copies into
      `always_actions_order` (Loop.cs:431-434). */
  function Values(r: Registry): seq<nat>
  {
    if r == [] then [] else [r[0].1] + Values(r[1..])
  }

  /** The callback registered under `name`. */
  function Lookup(r: Registry, name: string): Option<nat>
  {
    if r == [] then None
    else if r[0].0 == name then Some(r[0].1)
    else Lookup(r[1..], name)
  }

  /** `always_actions[name] = action`: replaces the callback of an existing
      name, or inserts the name at its ordinal place. */
  function Upsert(r: Registry, name: string, action: nat): Registry
  {
    if r == [] then [(name, action)]
    else if r[0].0 == name then [(name, action)] + r[1..]
    else if StrLess(name, r[0].0) then [(name, action)] + r
    else [r[0]] + Upsert(r[1..], name, action)
  }

  /** `always_actions.Remove(name)`. */
  function Delete(r: Registry, name: string): Registry
  {
    if r == [] then []
    else if r[0].0 == name then r[1..]
    else [r[0]] + Delete(r[1..], name)
  }

  lemma {:induction false} SortedCons(h: string, t: seq<string>)
    ensures StrSorted([h] + t) <==> StrSorted(t) && forall x :: x in t ==> StrLess(h, x)
  {
    var s := [h] + t;
    if StrSorted(t) && forall x :: x in t ==> StrLess(h, x) {
      forall i, j | 0 <= i < j < |s| ensures StrLess(s[i], s[j]) {
        if i > 0 {
          assert s[i] == t[i - 1] && s[j] == t[j - 1];
        } else {
          assert s[j] == t[j - 1];
        }
      }
    }
    if StrSorted(s) {
      forall i, j | 0 <= i < j < |t| ensures StrLess(t[i], t[j]) {
        assert s[i + 1] == t[i] && s[j + 1] == t[j];
      }
      forall x | x in t ensures StrLess(h, x) {
        var j :| 0 <= j < |t| && t[j] == x;
        assert s[0] == h && s[j + 1] == x;
      }
    }
  }

  lemma {:induction false} UpsertNames(r: Registry, name: string, action: nat, x: string)
    ensures x in Names(Upsert(r, name, action)) <==> x == name || x in Names(r)
  {
    if r != [] && r[0].0 != name && !StrLess(name, r[0].0) {
      UpsertNames(r[1..], name, action, x);
    }
  }

  /** Setting a name keeps the registry in strictly increasing key order. */
  lemma {:induction false} UpsertSorted(r: Registry, name: string, action: nat)
    requires StrSorted(Names(r))
    ensures StrSorted(Names(Upsert(r, name, action)))
  {
    if r == [] {
    } else if r[0].0 == name {
      SortedCons(r[0].0, Names(r[1..]));
      SortedCons(name, Names(r[1..]));
    } else if StrLess(name, r[0].0) {
      SortedCons(r[0].0, Names(r[1..]));
      forall x | x in Names(r) ensures StrLess(name, x) {
        if x != r[0].0 {
          StrLessTransitive(name, r[0].0, x);
        }
      }
      SortedCons(name, Names(r));
    } else {
      SortedCons(r[0].0, Names(r[1..]));
      UpsertSorted(r[1..], name, action);
      StrLessTotal(name, r[0].0);
      forall x | x in Names(Upsert(r[1..], name, action)) ensures StrLess(r[0].0, x) {
        UpsertNames(r[1..], name, action, x);
      }
      SortedCons(r[0].0, Names(Upsert(r[1..], name, action)));
    }
  }

  /** After setting a name, it maps to the new callback and every other name
      keeps its callback. */
  lemma {:induction false} UpsertLookup(r: Registry, name: string, action: nat, q: string)
    ensures Lookup(Upsert(r, name, action), q) == if q == name then Some(action) else Lookup(r, q)
  {
    if r != [] && r[0].0 != name && !StrLess(name, r[0].0) {
      UpsertLookup(r[1..], name, action, q);
    }
  }

  lemma {:induction false} DeleteNames(r: Registry, name: string, x: string)
    ensures x in Names(Delete(r, name)) ==> x in Names(r)
  {
    if r != [] && r[0].0 != name {
      DeleteNames(r[1..], name, x);
    }
  }

  /** Removing a name keeps the registry in strictly increasing key order. */
  lemma {:induction false} DeleteSorted(r: Registry, name: string)
    requires StrSorted(Names(r))
    ensures StrSorted(Names(Delete(r, name)))
  {
    if r != [] {
      SortedCons(r[0].0, Names(r[1..]));
      if r[0].0 != name {
        DeleteSorted(r[1..], name);
        forall x | x in Names(Delete(r[1..], name)) ensures StrLess(r[0].0, x) {
          DeleteNames(r[1..], name, x);
        }
        SortedCons(r[0].0, Names(Delete(r[1..], name)));
      }
    }
  }

  lemma {:induction false} LookupAbsent(r: Registry, name: string)
    requires name !in Names(r)
    ensures Lookup(r, name) == None
  {
    if r != [] {
      LookupAbsent(r[1..], name);
    }
  }

  /** After removing a name it is unbound (also when it was not there) and every
      other name keeps its callback. */
  lemma {:induction false} DeleteLookup(r: Registry, name: string, q: string)
    requires StrSorted(Names(r))
    ensures Lookup(Delete(r, name), q) == if q == name then None else Lookup(r, q)
  {
    if r != [] {
      SortedCons(r[0].0, Names(r[1..]));
      if r[0].0 == name {
        if q == name {
          StrLessIrreflexive(name);
          LookupAbsent(r[1..], name);
        }
      } else {
        DeleteLookup(r[1..], name, q);
      }
    }
  }

  // ---------------------------------------------------------------------------
  // Event bus

  /** A broadcast event: its identity and the types it is an instance of. */
  datatype Event = Event(id: nat, types: set<nat>)

  /** The four `Subscribe` overloads (Loop.cs:285-313): `Action`,
      `Action<string>`, `Action<T>` and `Action<string, T>`. */
  datatype Form = Plain | WithMessage | OfType(t: nat) | OfTypeWithMessage(t: nat)

  /** A subscription: the delegate it was made with (the dictionary key) and
      the form of its wrapper. */
  datatype Subscriber = Subscriber(delegate: nat, form: Form)

  /** Whether the wrapper calls the delegate for event `evt` (`None` is the
      null event): the typed forms need an event that is a `T`. */
  predicate Hears(form: Form, evt: Option<Event>)
  {
    match form
    case Plain => true
    case WithMessage => true
    case OfType(t) => evt.Some? && t in evt.value.types
    case OfTypeWithMessage(t) => evt.Some? && t in evt.value.types
  }

  function Delegates(subs: seq<Subscriber>): seq<nat>
  {
    if subs == [] then [] else [subs[0].delegate] + Delegates(subs[1..])
  }

  /** The delegates whose wrapper calls them for `evt`, in order. */
  function Hearers(subs: seq<Subscriber>, evt: Option<Event>): seq<nat>
  {
    if subs == [] then []
    else (if Hears(subs[0].form, evt) then [subs[0].delegate] else []) + Hearers(subs[1..], evt)
  }

  /** The trace of calling the wrappers `subs` in order (Loop.cs:258-268). */
  function Delivery(subs: seq<Subscriber>, evt: Option<Event>, failing: set<nat>): seq<Effect>
  {
    if subs == [] then []
    else (if Hears(subs[0].form, evt) then Call(subs[0].delegate, failing) else [])
         + Delivery(subs[1..], evt, failing)
  }

  /** A broadcast runs the delegates that hear the event, in subscription
      order, each in its own try/catch. */
  lemma {:induction false} DeliveryCalls(subs: seq<Subscriber>, evt: Option<Event>, failing: set<nat>)
    ensures Delivery(subs, evt, failing) == Calls(Hearers(subs, evt), failing)
  {
    if subs != [] {
      DeliveryCalls(subs[1..], evt, failing);
      var h := if Hears(subs[0].form, evt) then [subs[0].delegate] else [];
      CallsAppend(h, Hearers(subs[1..], evt), failing);
    }
  }

  /** `Dictionary.Remove(action)` on the subscriptions of one message. */
  function Without(subs: seq<Subscriber>, d: nat): seq<Subscriber>
  {
    if subs == [] then []
    else if subs[0].delegate == d then subs[1..]
    else [subs[0]] + Without(subs[1..], d)
  }

  lemma RemoveFront(x: nat, d: nat, m: multiset<nat>)
    ensures x == d ==> (multiset{x} + m) - multiset{d} == m
    ensures x != d ==> (multiset{x} + m) - multiset{d} == multiset{x} + (m - multiset{d})
  {
    if x != d {
      var l, r := (multiset{x} + m) - multiset{d}, multiset{x} + (m - multiset{d});
      forall y ensures l[y] == r[y] {
      }
    }
  }

  lemma {:induction false} WithoutCounts(subs: seq<Subscriber>, d: nat)
    ensures multiset(Delegates(Without(subs, d))) == multiset(Delegates(subs)) - multiset{d}
  {
    if subs != [] {
      var x, t := subs[0].delegate, subs[1..];
      WithoutCounts(t, d);
      var m := multiset(Delegates(t));
      assert Delegates(subs) == [x] + Delegates(t);
      assert multiset(Delegates(subs)) == multiset{x} + m;
      RemoveFront(x, d, m);
      if x != d {
        var w := Without(t, d);
        assert Delegates(Without(subs, d)) == [x] + Delegates(w);
        assert multiset(Delegates(Without(subs, d))) == multiset{x} + (m - multiset{d});
      }
    }
  }

  lemma {:induction false} WithoutLength(subs: seq<Subscriber>, d: nat)
    ensures |Without(subs, d)| == if d in Delegates(subs) then |subs| - 1 else |subs|
  {
    if subs != [] {
      WithoutLength(subs[1..], d);
      assert Delegates(subs) == [subs[0].delegate] + Delegates(subs[1..]);
    }
  }

  /** Unsubscribing removes exactly the subscription of `d`, one element,
      when there is one, and keeps the rest distinct. */
  lemma WithoutDelegates(subs: seq<Subscriber>, d: nat, x: nat)
    requires NoDup(Delegates(subs))
    ensures x in Delegates(Without(subs, d)) <==> x != d && x in Delegates(subs)
    ensures |Without(subs, d)| == if d in Delegates(subs) then |subs| - 1 else |subs|
    ensures NoDup(Delegates(Without(subs, d)))
  {
    WithoutCounts(subs, d);
    WithoutLength(subs, d);
    NoDupCounts(Delegates(subs));
    NoDupSub(Delegates(Without(subs, d)), Delegates(subs));
    assert x in Delegates(Without(subs, d)) <==> x in multiset(Delegates(Without(subs, d)));
    assert x in Delegates(subs) <==> x in multiset(Delegates(subs));
  }

  /** Unsubscribing a delegate right after subscribing it restores the
      subscriptions it was added to. */
  lemma {:induction false} WithoutSnoc(subs: seq<Subscriber>, x: Subscriber)
    requires x.delegate !in Delegates(subs)
    ensures Without(subs + [x], x.delegate) == subs
  {
    if subs == [] {
      assert subs + [x] == [x] && [x][1..] == [];
    } else {
      assert (subs + [x])[0] == subs[0] && (subs + [x])[1..] == subs[1..] + [x];
      assert Delegates(subs) == [subs[0].delegate] + Delegates(subs[1..]);
      WithoutSnoc(subs[1..], x);
    }
  }

  // ---------------------------------------------------------------------------
  // The dispatcher

  /** `AsyncWaiter` / `AsyncWaiter<T>` (Loop.cs:158-212): a pooled object whose
      `action` field holds the callback while it waits and is cleared once its
      `Emit` has run it. */
  class Waiter {
    const kind: Kind
    var action: Option<nat>

    constructor (kind: Kind, action: nat)
      ensures this.kind == kind && this.action == Some(action)
    {
      this.kind := kind;
      this.action := Some(action);
    }
  }

  /** Whether a call completed or threw one of the exceptions its argument checks
      raise: `ArgumentNullException(param)`, or the `ArgumentException` of
      `Dictionary.Add` on a key it already holds. */
  datatype Outcome = Done | NullArgument(param: string) | DuplicateKey

  /** Cancel's rewrite of one slot (Loop.cs:152-154). */
  function Strike(s: Slot, op: Operation): Slot
  {
    if s.Pending? && s.op == op then Cancelled else s
  }

  /** `Cancel(op)`: every slot registered for `op` becomes `(null, null)`. */
  function Cancelling(ops: seq<Slot>, op: Operation): (r: seq<Slot>)
    ensures |r| == |ops|
  {
    if ops == [] then [] else [Strike(ops[0], op)] + Cancelling(ops[1..], op)
  }

  lemma {:induction false} CancellingAppend(a: seq<Slot>, s: Slot, op: Operation)
    ensures Cancelling(a + [s], op) == Cancelling(a, op) + [Strike(s, op)]
  {
    if a == [] {
      assert a + [s] == [s] && [s][1..] == [];
    } else {
      assert (a + [s])[0] == a[0] && (a + [s])[1..] == a[1..] + [s];
      CancellingAppend(a[1..], s, op);
    }
  }

  /** After `Cancel(op)` no slot of `op` is pending any more, every other slot is
      as it was, and the remaining waiters are among the earlier ones. */
  lemma {:induction false} CancellingSlots(ops: seq<Slot>, op: Operation)
    ensures forall i :: 0 <= i < |ops| ==> Cancelling(ops, op)[i] == Strike(ops[i], op)
    ensures multiset(Waiters(Cancelling(ops, op))) <= multiset(Waiters(ops))
  {
    if ops != [] {
      var x, t := ops[0], ops[1..];
      CancellingSlots(t, op);
      var c := Cancelling(ops, op);
      assert c == [Strike(x, op)] + Cancelling(t, op);
      forall i | 0 < i < |ops| ensures c[i] == Strike(ops[i], op) {
        assert c[i] == Cancelling(t, op)[i - 1] && ops[i] == t[i - 1];
      }
      var wx := if x.Pending? then [x.waiter] else [];
      var wc := if Strike(x, op).Pending? then [x.waiter] else [];
      assert Waiters(ops) == wx + Waiters(t);
      assert Waiters(c) == wc + Waiters(Cancelling(t, op));
      assert multiset(wc) <= multiset(wx);
    }
  }

  /** The loop of Loop.cs:150-155: every slot of `op` in the list is
      overwritten with `(null, null)`, in place. */
  method StrikeAll(ops: seq<Slot>, op: Operation) returns (slots: seq<Slot>)
    ensures slots == Cancelling(ops, op)
  {
    slots := ops;
    var i := 0;
    while i < |slots|
      invariant 0 <= i <= |slots| == |ops|
      invariant forall j :: 0 <= j < i ==> slots[j] == Strike(ops[j], op)
      invariant forall j :: i <= j < |slots| ==> slots[j] == ops[j]
    {
      if slots[i].Pending? && slots[i].op == op {
        slots := slots[i := Cancelled];
      }
      i := i + 1;
    }
    CancellingSlots(ops, op);
  }

  /** A cancelled operation is silent: the next tick neither keeps nor fires a
      slot for it. */
  lemma CancelSilences(ops: seq<Slot>, op: Operation, done: set<nat>, s: Slot)
    requires s in Keeps(Cancelling(ops, op), done) || s in Fires(Cancelling(ops, op), done)
    ensures s.Pending? && s.op != op
  {
    FiltersMembers(Cancelling(ops, op), done, s);
    CancellingSlots(ops, op);
  }

  lemma NoDupSub<T>(a: seq<T>, c: seq<T>)
    requires multiset(a) <= multiset(c) && NoDup(c)
    ensures NoDup(a)
  {
    NoDupCounts(a);
    NoDupCounts(c);
    forall x ensures multiset(a)[x] <= 1 {
      assert multiset(a)[x] <= multiset(c)[x];
    }
  }

  function CallIds(calls: seq<Clocks.Invocation>): (r: seq<nat>)
    ensures |r| == |calls| && forall i :: 0 <= i < |calls| ==> r[i] == calls[i].id
  {
    if calls == [] then [] else [calls[0].id] + CallIds(calls[1..])
  }

  /** The exceptions the timer wheel hands to `errfn` are those of the clock
      callbacks that throw, in firing order. */
  lemma {:induction false} FailedThrowing(calls: seq<Clocks.Invocation>, failing: set<nat>)
    ensures Clocks.FailedIds(calls, failing) == Throwing(CallIds(calls), failing)
  {
    if calls != [] {
      FailedThrowing(calls[1..], failing);
      assert CallIds(calls)[1..] == CallIds(calls[1..]);
    }
  }

  /** The jobs of the pending slots `due`, read from their waiters' `action`
      fields. */
  ghost function JobsOf(due: seq<Slot>): seq<Job>
    reads set s | s in due && s.Pending? :: s.waiter
  {
    if due == [] then []
    else
      match due[0]
      case Cancelled => JobsOf(due[1..])
      case Pending(op, w) =>
        (match w.action case None => [] case Some(a) => [Job(op, w, a)]) + JobsOf(due[1..])
  }

  lemma NoDupSnoc<T>(s: seq<T>, x: T)
    requires NoDup(s) && x !in s
    ensures NoDup(s + [x])
  {
    forall i, j | 0 <= i < j < |s + [x]| ensures (s + [x])[i] != (s + [x])[j] {
      assert (s + [x])[i] == s[i];
      if j < |s| {
        assert (s + [x])[j] == s[j];
      }
    }
  }

  lemma {:induction false} CallsSnoc(ids: seq<nat>, x: nat, failing: set<nat>)
    ensures Calls(ids + [x], failing) == Calls(ids, failing) + Call(x, failing)
  {
    CallsAppend(ids, [x], failing);
    assert [x][1..] == [];
  }

  lemma {:induction false} ValuesSnoc(r: Registry, x: (string, nat))
    ensures Values(r + [x]) == Values(r) + [x.1]
  {
    if r == [] {
      assert r + [x] == [x] && [x][1..] == [];
    } else {
      assert (r + [x])[0] == r[0] && (r + [x])[1..] == r[1..] + [x];
      ValuesSnoc(r[1..], x);
    }
  }

  lemma {:induction false} DelegatesSnoc(subs: seq<Subscriber>, x: Subscriber)
    ensures Delegates(subs + [x]) == Delegates(subs) + [x.delegate]
  {
    if subs == [] {
      assert subs + [x] == [x] && [x][1..] == [];
    } else {
      assert (subs + [x])[0] == subs[0] && (subs + [x])[1..] == subs[1..] + [x];
      DelegatesSnoc(subs[1..], x);
    }
  }

  lemma {:induction false} DeliverySnoc(subs: seq<Subscriber>, x: Subscriber, evt: Option<Event>, failing: set<nat>)
    ensures Delivery(subs + [x], evt, failing)
         == Delivery(subs, evt, failing) + (if Hears(x.form, evt) then Call(x.delegate, failing) else [])
  {
    if subs == [] {
      assert subs + [x] == [x] && [x][1..] == [];
    } else {
      assert (subs + [x])[0] == subs[0] && (subs + [x])[1..] == subs[1..] + [x];
      DeliverySnoc(subs[1..], x, evt, failing);
    }
  }

  /** The copy of the subscriptions into a pooled list (Loop.cs:253-257). */
  method CopyAll(subs: seq<Subscriber>) returns (list: seq<Subscriber>)
    ensures list == subs
  {
    list := [];
    var i := 0;
    while i < |subs|
      invariant 0 <= i <= |subs| && list == subs[..i]
    {
      list := list + [subs[i]];
      i := i + 1;
    }
    assert subs[..i] == subs;
  }

  /** The wrappers of `list` run in order, each in its own try/catch
      (Loop.cs:258-268). */
  method RunDelivery(list: seq<Subscriber>, evt: Option<Event>, failing: set<nat>) returns (effects: seq<Effect>)
    ensures effects == Delivery(list, evt, failing)
  {
    effects := [];
    var i := 0;
    while i < |list|
      invariant 0 <= i <= |list| && effects == Delivery(list[..i], evt, failing)
    {
      DeliverySnoc(list[..i], list[i], evt, failing);
      assert list[..i + 1] == list[..i] + [list[i]];
      effects := effects + if Hears(list[i].form, evt) then Call(list[i].delegate, failing) else [];
      i := i + 1;
    }
    assert list[..i] == list;
  }

  /** Whether the `Dictionary` of the subscriptions of `msg` holds `d`. */
  predicate Subscribed(events: map<string, seq<Subscriber>>, msg: string, d: nat)
  {
    msg in events && d in Delegates(events[msg])
  }

  /** The static state of Loop.cs. Each `..Drain` list is the `.._tmp` half of a
      swapped pair, empty between ticks; `waiters` is every waiter allocated so
      far. */
  class Dispatcher {
    /** The callback `Error` installed, `None` for the default that ignores
        exceptions. */
    var errfn: Option<nat>
    var actions: seq<nat>
    var actionsDrain: seq<nat>
    /** Exceptions of worker actions, captured for the loop thread. */
    var exceptions: seq<nat>
    var operations: seq<Slot>
    var operationsKept: seq<Slot>
    /** `operations_action`: the slots whose operation is done, between the
        partition and the firing. */
    var operationsDue: seq<Slot>
    /** The free stacks of `AsyncWaiter` and each `AsyncWaiter<T>`, top last. */
    var pools: map<Kind, seq<Waiter>>
    var always: Registry
    var order: seq<nat>
    /** `always_actions_invaild`: `order` is out of date. */
    var dirty: bool
    var idles: seq<nat>
    var idlesDrain: seq<nat>
    var events: map<string, seq<Subscriber>>
    /** The number of spare snapshot lists on the `events_action` stack. */
    var spareLists: nat
    ghost var waiters: set<Waiter>

    /** Every waiter of a pending slot is known and holds its action. */
    ghost predicate Armed(ops: seq<Slot>)
      reads this`waiters, waiters
    {
      forall i :: 0 <= i < |ops| && ops[i].Pending? ==> ops[i].waiter in waiters && ops[i].waiter.action.Some?
    }

    /** Every pooled waiter is known, has no action, sits in the pool of its
        own kind, and appears once. */
    ghost predicate Pooled()
      reads this`pools, this`waiters, waiters
    {
      && (forall k, i :: k in pools && 0 <= i < |pools[k]| ==>
            pools[k][i] in waiters && pools[k][i].action == None && pools[k][i].kind == k)
      && (forall k :: k in pools ==> NoDup(pools[k]))
    }

    /** The waiters of armed slots are known and hold an action. */
    lemma {:induction false} WaitersKnown(ops: seq<Slot>)
      requires Armed(ops)
      ensures forall v :: v in Waiters(ops) ==> v in waiters && v.action.Some?
    {
      if ops != [] {
        assert Armed(ops[1..]) by {
          forall i | 0 <= i < |ops[1..]| && ops[1..][i].Pending?
            ensures ops[1..][i].waiter in waiters && ops[1..][i].waiter.action.Some?
          {
            assert ops[1..][i] == ops[i + 1];
          }
        }
        WaitersKnown(ops[1..]);
      }
    }

    /** Armed pending slots give one job each, position by position. */
    lemma {:induction false} JobsOfArmed(due: seq<Slot>)
      requires Armed(due) && forall i :: 0 <= i < |due| ==> due[i].Pending?
      ensures |JobsOf(due)| == |due|
      ensures forall i :: 0 <= i < |due| ==>
        JobsOf(due)[i] == Job(due[i].op, due[i].waiter, due[i].waiter.action.value)
    {
      if due != [] {
        assert Armed(due[1..]) by {
          forall i | 0 <= i < |due[1..]| && due[1..][i].Pending?
            ensures due[1..][i].waiter in waiters && due[1..][i].waiter.action.Some?
          {
            assert due[1..][i] == due[i + 1];
          }
        }
        JobsOfArmed(due[1..]);
        assert due[0].waiter.action.Some?;
        forall i | 0 < i < |due|
          ensures JobsOf(due)[i] == Job(due[i].op, due[i].waiter, due[i].waiter.action.value)
        {
          assert due[i] == due[1..][i - 1];
        }
      }
    }

    /** The recurring callbacks are in key order, `order` is their value list
        unless marked out of date, and every message has a non-empty list of
        distinct delegates. */
    ghost predicate Registered()
      reads this`always, this`order, this`dirty, this`events
    {
      && StrSorted(Names(always))
      && (!dirty ==> order == Values(always))
      && (forall msg :: msg in events ==> events[msg] != [] && NoDup(Delegates(events[msg])))
    }

    ghost predicate Valid()
      reads this, waiters
    {
      && actionsDrain == [] && idlesDrain == [] && operationsKept == [] && operationsDue == []
      && Armed(operations) && NoDup(Waiters(operations))
      && Pooled()
      && Registered()
    }

    constructor ()
      ensures Valid() && fresh(waiters)
      ensures actions == [] && exceptions == [] && operations == [] && pools == map[]
      ensures always == [] && !dirty && idles == [] && events == map[] && errfn == None
    {
      errfn := None;
      actions, actionsDrain, exceptions := [], [], [];
      operations, operationsKept, operationsDue := [], [], [];
      pools := map[];
      always, order, dirty := [], [], false;
      idles, idlesDrain := [], [];
      events, spareLists := map[], 0;
      waiters := {};
    }

    /** `Loop.Execute(action)` (Loop.cs:58-78): on the loop thread the action
        runs at once inside a try/catch; from any other thread it is appended
        to `actions` for the next tick. */
    method Execute(action: nat, onLoopThread: bool, failing: set<nat>) returns (effects: seq<Effect>)
      requires Valid()
      modifies this`actions
      ensures Valid()
      ensures onLoopThread ==> effects == Call(action, failing) && actions == old(actions)
      ensures !onLoopThread ==> effects == [] && actions == old(actions) + [action]
    {
      if onLoopThread {
        effects := Call(action, failing);
      } else {
        effects := [];
        actions := actions + [action];
      }
    }

    /** A worker action threw (Loop.cs:113-118): its exception is kept for the
        loop thread. */
    method Capture(id: nat)
      requires Valid()
      modifies this`exceptions
      ensures Valid() && exceptions == old(exceptions) + [id]
    {
      exceptions := exceptions + [id];
    }

    /** `AsyncWaiter.Acquire` / `AsyncWaiter<T>.Acquire` (Loop.cs:173-180,
        202-209): pops the top of the kind's pool and gives it the action, or
        allocates a waiter when the pool is empty. */
    method Acquire(kind: Kind, action: nat) returns (w: Waiter)
      requires Valid()
      modifies this`pools, this`waiters, waiters`action
      ensures Valid() && w in waiters && w !in Waiters(operations)
      ensures w.kind == kind && w.action == Some(action)
      ensures var p := Pool(old(pools), kind);
        if p == [] then fresh(w) && pools == old(pools) && waiters == old(waiters) + {w}
        else w == p[|p| - 1] && pools == old(pools)[kind := p[..|p| - 1]] && waiters == old(waiters)
      ensures forall v {:trigger v in old(waiters)} :: v in old(waiters) && v != w ==> v.action == old(v.action)
    {
      var p := Pool(pools, kind);
      if p == [] {
        WaitersKnown(operations);
        w := new Waiter(kind, action);
        waiters := waiters + {w};
      } else {
        w := p[|p| - 1];
        assert w.action == None;
        WaitersKnown(operations);
        pools := pools[kind := p[..|p| - 1]];
        w.action := Some(action);
      }
    }

    /** `Loop.Wait(operation, action)` and `Wait<T>` (Loop.cs:125-143): a null
        operation or action is rejected and nothing changes; otherwise the
        operation is registered with a waiter of `kind` holding the action,
        taken from the top of the kind's pool or allocated when the pool is
        empty, and no other waiter changes. */
    method Wait(op: Option<Operation>, action: Option<nat>, kind: Kind) returns (r: Outcome)
      requires Valid()
      modifies this`operations, this`pools, this`waiters, waiters`action
      ensures Valid()
      ensures op.None? ==> r == NullArgument("operation")
      ensures op.Some? && action.None? ==> r == NullArgument("action")
      ensures r == Done <==> op.Some? && action.Some?
      ensures r != Done ==> operations == old(operations) && pools == old(pools) && waiters == old(waiters)
      ensures r != Done ==> forall v {:trigger v in old(waiters)} :: v in old(waiters) ==> v.action == old(v.action)
      ensures r == Done ==>
        && |operations| == |old(operations)| + 1 && operations[..|old(operations)|] == old(operations)
        && var s := operations[|old(operations)|];
           && s.Pending? && s.op == op.value && s.waiter.kind == kind && s.waiter.action == action
           && (var p := Pool(old(pools), kind);
               if p == [] then fresh(s.waiter) && pools == old(pools) && waiters == old(waiters) + {s.waiter}
               else s.waiter == p[|p| - 1] && pools == old(pools)[kind := p[..|p| - 1]] && waiters == old(waiters))
           && forall v {:trigger v in old(waiters)} :: v in old(waiters) && v != s.waiter ==> v.action == old(v.action)
    {
      if op.None? {
        return NullArgument("operation");
      }
      if action.None? {
        return NullArgument("action");
      }
      Register(op.value, action.value, kind);
      r := Done;
    }

    /** The registration of `Wait` once both arguments are present: a waiter
        from `Acquire` and a new slot at the end of `operations`. */
    method Register(o: Operation, a: nat, kind: Kind)
      requires Valid()
      modifies this`operations, this`pools, this`waiters, waiters`action
      ensures Valid()
      ensures |operations| == |old(operations)| + 1 && operations[..|old(operations)|] == old(operations)
      ensures var s := operations[|old(operations)|];
        && s.Pending? && s.op == o && s.waiter.kind == kind && s.waiter.action == Some(a)
        && (var p := Pool(old(pools), kind);
            if p == [] then fresh(s.waiter) && pools == old(pools) && waiters == old(waiters) + {s.waiter}
            else s.waiter == p[|p| - 1] && pools == old(pools)[kind := p[..|p| - 1]] && waiters == old(waiters))
        && forall v {:trigger v in old(waiters)} :: v in old(waiters) && v != s.waiter ==> v.action == old(v.action)
    {
      var w := Acquire(kind, a);
      WaitersAppend(operations, [Pending(o, w)]);
      assert Waiters([Pending(o, w)]) == [w];
      NoDupSnoc(Waiters(operations), w);
      operations := operations + [Pending(o, w)];
    }

    /** Cancelling keeps the slots armed and their waiters distinct. */
    lemma CancelKeeps(ops: seq<Slot>, op: Operation)
      requires Armed(ops) && NoDup(Waiters(ops))
      ensures Armed(Cancelling(ops, op)) && NoDup(Waiters(Cancelling(ops, op)))
    {
      var c := Cancelling(ops, op);
      CancellingSlots(ops, op);
      NoDupSub(Waiters(c), Waiters(ops));
      forall j | 0 <= j < |c| && c[j].Pending?
        ensures c[j].waiter in waiters && c[j].waiter.action.Some?
      {
        assert c[j] == ops[j];
      }
    }

    /** `Loop.Cancel(operation)` (Loop.cs:145-156): a null operation is
        rejected; otherwise every slot of the operation becomes `(null, null)`. */
    method Cancel(op: Option<Operation>) returns (r: Outcome)
      requires Valid()
      modifies this`operations
      ensures Valid()
      ensures op.None? ==> r == NullArgument("operation") && operations == old(operations)
      ensures op.Some? ==> r == Done && operations == Cancelling(old(operations), op.value)
    {
      if op.None? {
        return NullArgument("operation");
      }
      CancelKeeps(operations, op.value);
      var slots := StrikeAll(operations, op.value);
      operations := slots;
      r := Done;
    }

    /** `Loop.RunAlways(name, action)` (Loop.cs:214-220): a null action is
        rejected; otherwise the name is bound to the action, replacing an
        earlier one, and the firing order is marked out of date. */
    method RunAlways(name: string, action: Option<nat>) returns (r: Outcome)
      requires Valid()
      modifies this`always, this`dirty
      ensures Valid()
      ensures action.None? ==> r == NullArgument("action") && always == old(always) && dirty == old(dirty)
      ensures action.Some? ==> r == Done && dirty && always == Upsert(old(always), name, action.value)
    {
      if action.None? {
        return NullArgument("action");
      }
      UpsertSorted(always, name, action.value);
      dirty := true;
      always := Upsert(always, name, action.value);
      r := Done;
    }

    /** `Loop.RemoveAlways(name)` (Loop.cs:222-226): unbinds the name and marks
        the firing order out of date, also when the name was not bound. */
    method RemoveAlways(name: string)
      requires Valid()
      modifies this`always, this`dirty
      ensures Valid()
      ensures dirty && always == Delete(old(always), name)
    {
      DeleteSorted(always, name);
      dirty := true;
      always := Delete(always, name);
    }

    /** `Loop.Idle(action)` (Loop.cs:228-233): a null action is rejected;
        otherwise the action runs at the end of the next tick. */
    method Idle(action: Option<nat>) returns (r: Outcome)
      requires Valid()
      modifies this`idles
      ensures Valid()
      ensures action.None? ==> r == NullArgument("action") && idles == old(idles)
      ensures action.Some? ==> r == Done && idles == old(idles) + [action.value]
    {
      if action.None? {
        return NullArgument("action");
      }
      idles := idles + [action.value];
      r := Done;
    }

    /** `Loop.Error(fn)` (Loop.cs:325-344): installs `fn` as the error callback,
        wrapped so that its own exceptions are swallowed; null restores the
        default that ignores every exception. */
    method Error(fn: Option<nat>)
      requires Valid()
      modifies this`errfn
      ensures Valid() && errfn == fn
    {
      errfn := fn;
    }

    /** `Loop.Subscribe(msg, action)` (Loop.cs:274-313): adds the subscription
        under `msg`, creating the message's dictionary when it has none; a
        delegate already subscribed to `msg` makes `Dictionary.Add` throw and
        changes nothing. */
    method Subscribe(msg: string, sub: Subscriber) returns (r: Outcome)
      requires Valid()
      modifies this`events
      ensures Valid()
      ensures Subscribed(old(events), msg, sub.delegate) ==> r == DuplicateKey && events == old(events)
      ensures !Subscribed(old(events), msg, sub.delegate) ==>
        r == Done && events == old(events)[msg := (if msg in old(events) then old(events)[msg] else []) + [sub]]
    {
      var subs := if msg in events then events[msg] else [];
      if sub.delegate in Delegates(subs) {
        return DuplicateKey;
      }
      DelegatesSnoc(subs, sub);
      NoDupSnoc(Delegates(subs), sub.delegate);
      events := events[msg := subs + [sub]];
      r := Done;
    }

    /** `Loop.Unsubscribe(msg, action)` (Loop.cs:315-323): removes the
        subscription of `d` under `msg`, and the message itself once it has no
        subscription left; anything else changes nothing. */
    method Unsubscribe(msg: string, d: nat)
      requires Valid()
      modifies this`events
      ensures Valid()
      ensures !Subscribed(old(events), msg, d) ==> events == old(events)
      ensures Subscribed(old(events), msg, d) ==>
        if Without(old(events)[msg], d) == [] then events == old(events) - {msg}
        else events == old(events)[msg := Without(old(events)[msg], d)]
    {
      if msg in events && d in Delegates(events[msg]) {
        var subs := Without(events[msg], d);
        WithoutDelegates(events[msg], d, d);
        if subs == [] {
          events := events - {msg};
        } else {
          events := events[msg := subs];
        }
      }
    }

    /** `Loop.Broadcast(msg, evt)` (Loop.cs:240-245): a null event is rejected;
        otherwise the event is delivered. */
    method Broadcast(msg: string, evt: Option<Event>, failing: set<nat>) returns (r: Outcome, effects: seq<Effect>)
      requires Valid()
      modifies this`spareLists
      ensures Valid()
      ensures evt.None? ==> r == NullArgument("evt") && effects == [] && spareLists == old(spareLists)
      ensures evt.Some? ==> r == Done && effects == (if msg in events then Delivery(events[msg], evt, failing) else [])
      ensures evt.Some? ==> spareLists == if msg in events && old(spareLists) == 0 then 1 else old(spareLists)
    {
      if evt.None? {
        return NullArgument("evt"), [];
      }
      effects := Deliver(msg, evt, failing);
      r := Done;
    }

    /** `Loop.Broadcast(msg)` (Loop.cs:235-238): delivers the null event. */
    method BroadcastEmpty(msg: string, failing: set<nat>) returns (effects: seq<Effect>)
      requires Valid()
      modifies this`spareLists
      ensures Valid()
      ensures effects == (if msg in events then Delivery(events[msg], None, failing) else [])
      ensures spareLists == if msg in events && old(spareLists) == 0 then 1 else old(spareLists)
    {
      effects := Deliver(msg, None, failing);
    }

    /** The delivery of Loop.cs:246-271: the wrappers subscribed to `msg` are
        copied into a list from the spare stack (or a new one) before any of
        them runs, run in order each in its own try/catch, and the cleared list
        goes back onto the stack. */
    method Deliver(msg: string, evt: Option<Event>, failing: set<nat>) returns (effects: seq<Effect>)
      requires Valid()
      modifies this`spareLists
      ensures Valid()
      ensures effects == (if msg in events then Delivery(events[msg], evt, failing) else [])
      ensures spareLists == if msg in events && old(spareLists) == 0 then 1 else old(spareLists)
    {
      effects := [];
      if msg in events {
        var subs := events[msg];
        var spare := spareLists;
        if spare > 0 {
          spare := spare - 1;
        }
        var list := CopyAll(subs);
        effects := RunDelivery(list, evt, failing);
        spareLists := spare + 1;
      }
    }

    /** The partition keeps the slots armed, splits their distinct waiters into
        two disjoint groups, and fires only pending slots. */
    lemma SplitKeeps(ops: seq<Slot>, done: set<nat>)
      requires Armed(ops) && NoDup(Waiters(ops))
      ensures Armed(Keeps(ops, done)) && Armed(Fires(ops, done))
      ensures NoDup(Waiters(Keeps(ops, done))) && NoDup(Waiters(Fires(ops, done)))
      ensures forall v :: v in Waiters(Keeps(ops, done)) ==> v !in Waiters(Fires(ops, done))
      ensures forall i :: 0 <= i < |Fires(ops, done)| ==> Fires(ops, done)[i].Pending?
    {
      var k, f := Keeps(ops, done), Fires(ops, done);
      FiltersWaiters(ops, done);
      NoDupShare(Waiters(k), Waiters(f), Waiters(ops));
      forall i | 0 <= i < |k| && k[i].Pending?
        ensures k[i].waiter in waiters && k[i].waiter.action.Some?
      {
        FiltersMembers(ops, done, k[i]);
      }
      forall i | 0 <= i < |f|
        ensures f[i].Pending? && f[i].waiter in waiters && f[i].waiter.action.Some?
      {
        FiltersMembers(ops, done, f[i]);
      }
    }

    /** The partition loop of Loop.cs:362-373: slot by slot, a waiting one goes
        to `operations_tmp`, a done one to `operations_action`, a cancelled one
        nowhere; then the emptied list and `operations_tmp` swap. */
    method Split(done: set<nat>)
      requires operationsKept == [] && operationsDue == []
      requires Armed(operations) && NoDup(Waiters(operations))
      modifies this`operations, this`operationsKept, this`operationsDue
      ensures operations == Keeps(old(operations), done)
      ensures operationsDue == Fires(old(operations), done)
      ensures operationsKept == []
      ensures Armed(operations) && NoDup(Waiters(operations))
      ensures Armed(operationsDue) && NoDup(Waiters(operationsDue))
      ensures forall v :: v in Waiters(operations) ==> v !in Waiters(operationsDue)
      ensures forall i :: 0 <= i < |operationsDue| ==> operationsDue[i].Pending?
    {
      SplitKeeps(operations, done);
      var i := 0;
      while i < |operations|
        invariant 0 <= i <= |operations| && operations == old(operations)
        invariant (operationsKept, operationsDue) == Partition(operations[..i], done)
      {
        var s := operations[i];
        assert operations[..i + 1][..i] == operations[..i];
        if s.Pending? && s.op.id !in done {
          operationsKept := operationsKept + [s];
        } else if s.Pending? {
          operationsDue := operationsDue + [s];
        }
        i := i + 1;
      }
      assert operations[..i] == operations;
      PartitionFilters(operations, done);
      operations, operationsKept := operationsKept, [];
    }

    /** `Emit` of `AsyncWaiter` and `AsyncWaiter<T>` (Loop.cs:165-170,
        192-199): the action runs when the waiter accepts the operation; unless
        it throws, the waiter then drops its action and goes back onto its
        pool. */
    method Emit(op: Operation, w: Waiter, failing: set<nat>) returns (effects: seq<Effect>)
      requires Pooled() && w in waiters && w.action.Some?
      modifies this`pools, w`action
      ensures Pooled()
      ensures var j := Job(op, w, old(w.action).value);
        && effects == Emission(j, failing)
        && (Throws(j, failing) ==> pools == old(pools) && w.action == old(w.action))
        && (!Throws(j, failing) ==> pools == Push(old(pools), w) && w.action == None)
    {
      var a := w.action.value;
      effects := [];
      if Accepts(w.kind, op) {
        effects := Call(a, failing);
        if a in failing {
          return;
        }
      }
      assert w !in Pool(pools, w.kind);
      NoDupSnoc(Pool(pools, w.kind), w);
      w.action := None;
      pools := Push(pools, w);
    }

    /** One turn of the firing loop: the `i`-th due waiter fires, the armed
        operations keep their actions, and the later due waiters theirs. */
    method FireStep(due: seq<Slot>, i: nat, failing: set<nat>, ghost jobs: seq<Job>,
                    ghost start: map<Kind, seq<Waiter>>, effects: seq<Effect>) returns (more: seq<Effect>)
      requires i < |due| == |jobs|
      requires Pooled() && Armed(operations)
      requires forall j :: 0 <= j < |due| ==> due[j].Pending? && due[j].waiter in waiters
      requires forall j, k :: 0 <= j < k < |due| ==> due[j].waiter != due[k].waiter
      requires forall k :: 0 <= k < |operations| && operations[k].Pending? ==> operations[k].waiter != due[i].waiter
      requires forall j :: 0 <= j < i ==> due[j].waiter.action == Holding(jobs[j], failing)
      requires forall j :: i <= j < |due| ==> due[j].waiter.action == Some(jobs[j].action)
      requires jobs[i] == Job(due[i].op, due[i].waiter, jobs[i].action)
      requires pools == Refill(start, jobs[..i], failing) && effects == Emissions(jobs[..i], failing)
      modifies this`pools, due[i].waiter`action
      ensures Pooled() && Armed(operations)
      ensures pools == Refill(start, jobs[..i + 1], failing)
      ensures more == Emissions(jobs[..i + 1], failing)
      ensures forall j :: 0 <= j <= i ==> due[j].waiter.action == Holding(jobs[j], failing)
      ensures forall j :: i < j < |due| ==> due[j].waiter.action == Some(jobs[j].action)
    {
      var w := due[i].waiter;
      label L:
      var e := Emit(due[i].op, w, failing);
      forall j | 0 <= j < |due| && j != i
        ensures due[j].waiter.action == old@L(due[j].waiter.action)
      {
        assert due[j].waiter != w;
      }
      forall k | 0 <= k < |operations| && operations[k].Pending?
        ensures operations[k].waiter in waiters && operations[k].waiter.action.Some?
      {
        assert operations[k].waiter != w;
      }
      FiredOneMore(start, jobs, i, failing, old(pools), pools, effects, e);
      more := effects + e;
    }

    /** The done slots a partition hands to the firing loop: their waiters are
        known, distinct, hold the actions `JobsOf` records, and wait on no
        slot that stays. */
    lemma FireReady(due: seq<Slot>)
      requires Armed(due) && NoDup(Waiters(due))
      requires forall v :: v in Waiters(operations) ==> v !in Waiters(due)
      requires forall i :: 0 <= i < |due| ==> due[i].Pending?
      ensures |due| == |JobsOf(due)|
      ensures forall j :: 0 <= j < |due| ==> due[j].Pending? && due[j].waiter in waiters
      ensures forall j, k :: 0 <= j < k < |due| ==> due[j].waiter != due[k].waiter
      ensures forall k, j :: 0 <= k < |operations| && operations[k].Pending? && 0 <= j < |due| ==>
        operations[k].waiter != due[j].waiter
      ensures forall j :: 0 <= j < |due| ==>
        JobsOf(due)[j] == Job(due[j].op, due[j].waiter, JobsOf(due)[j].action)
        && due[j].waiter.action == Some(JobsOf(due)[j].action)
    {
      JobsOfArmed(due);
      WaitersOfPending(due);
      WaitersHas(operations);
      forall j, k | 0 <= j < k < |due| ensures due[j].waiter != due[k].waiter {
        assert due[j].waiter == Waiters(due)[j] && due[k].waiter == Waiters(due)[k];
      }
      forall k, j | 0 <= k < |operations| && operations[k].Pending? && 0 <= j < |due|
        ensures operations[k].waiter != due[j].waiter
      {
        assert due[j].waiter == Waiters(due)[j];
      }
    }

    /** The firing loop of Loop.cs:374-385: the waiters of the done slots fire
        in order, each inside the tick's try/catch. */
    method FireDue(due: seq<Slot>, failing: set<nat>, ghost jobs: seq<Job>) returns (effects: seq<Effect>)
      requires Pooled() && Armed(operations) && Armed(due)
      requires NoDup(Waiters(due))
      requires forall v :: v in Waiters(operations) ==> v !in Waiters(due)
      requires forall i :: 0 <= i < |due| ==> due[i].Pending?
      requires jobs == JobsOf(due)
      modifies this`pools, waiters`action
      ensures Pooled() && Armed(operations)
      ensures pools == Refill(old(pools), jobs, failing)
      ensures effects == Emissions(jobs, failing)
      ensures forall j :: 0 <= j < |jobs| ==> jobs[j].waiter.action == Holding(jobs[j], failing)
      ensures forall v :: v in waiters && v !in Waiters(due) ==> v.action == old(v.action)
    {
      FireReady(due);
      effects := FireAll(due, failing, jobs);
    }

    /** The loop itself, over slots whose waiters are known, distinct, armed
        with the actions `jobs` records, and not waiting on `operations`. */
    method FireAll(due: seq<Slot>, failing: set<nat>, ghost jobs: seq<Job>) returns (effects: seq<Effect>)
      requires |due| == |jobs| && Pooled() && Armed(operations)
      requires forall j :: 0 <= j < |due| ==> due[j].Pending? && due[j].waiter in waiters
      requires forall j, k :: 0 <= j < k < |due| ==> due[j].waiter != due[k].waiter
      requires forall k, j :: 0 <= k < |operations| && operations[k].Pending? && 0 <= j < |due| ==>
        operations[k].waiter != due[j].waiter
      requires forall j :: 0 <= j < |due| ==>
        jobs[j] == Job(due[j].op, due[j].waiter, jobs[j].action) && due[j].waiter.action == Some(jobs[j].action)
      modifies this`pools, waiters`action
      ensures Pooled() && Armed(operations)
      ensures pools == Refill(old(pools), jobs, failing)
      ensures effects == Emissions(jobs, failing)
      ensures forall j :: 0 <= j < |jobs| ==> jobs[j].waiter.action == Holding(jobs[j], failing)
      ensures forall v :: v in waiters && v !in Waiters(due) ==> v.action == old(v.action)
    {
      WaitersOfPending(due);
      effects := [];
      for i := 0 to |due|
        invariant Pooled() && Armed(operations)
        invariant pools == Refill(old(pools), jobs[..i], failing)
        invariant effects == Emissions(jobs[..i], failing)
        invariant forall j :: 0 <= j < i ==> due[j].waiter.action == Holding(jobs[j], failing)
        invariant forall j :: i <= j < |due| ==> due[j].waiter.action == Some(jobs[j].action)
        invariant forall v :: v in waiters && v !in Waiters(due) ==> v.action == old(v.action)
      {
        effects := FireStep(due, i, failing, jobs, old(pools), effects);
      }
      assert jobs[..|due|] == jobs;
    }

    /** The polling block of Loop.cs:360-387: when there are operations,
        partition them, fire the waiters of the done ones, and clear
        `operations_action`. */
    method PollOperations(done: set<nat>, failing: set<nat>) returns (effects: seq<Effect>, ghost jobs: seq<Job>)
      requires Valid()
      modifies this`operations, this`operationsKept, this`operationsDue, this`pools, waiters`action
      ensures Valid()
      ensures operations == Keeps(old(operations), done)
      ensures jobs == old(JobsOf(Fires(operations, done)))
      ensures pools == Refill(old(pools), jobs, failing)
      ensures effects == Emissions(jobs, failing)
      ensures forall j :: 0 <= j < |jobs| ==> jobs[j].waiter.action == Holding(jobs[j], failing)
      ensures forall v :: v in waiters && v !in Waiters(old(Fires(operations, done))) ==> v.action == old(v.action)
    {
      if |operations| == 0 {
        assert Fires(operations, done) == [] && Keeps(operations, done) == [];
        return [], [];
      }
      effects, jobs := Poll(done, failing);
      operationsDue := [];
    }

    /** The partition and the firing loop of the polling block, on a
        non-empty list of operations; `operations_action` still holds the due
        slots afterwards. */
    method Poll(done: set<nat>, failing: set<nat>) returns (effects: seq<Effect>, ghost jobs: seq<Job>)
      requires Armed(operations) && NoDup(Waiters(operations)) && Pooled()
      requires operationsKept == [] && operationsDue == []
      modifies this`operations, this`operationsKept, this`operationsDue, this`pools, waiters`action
      ensures Armed(operations) && NoDup(Waiters(operations)) && Pooled()
      ensures operationsKept == [] && operationsDue == Fires(old(operations), done)
      ensures operations == Keeps(old(operations), done)
      ensures jobs == old(JobsOf(Fires(operations, done)))
      ensures pools == Refill(old(pools), jobs, failing)
      ensures effects == Emissions(jobs, failing)
      ensures forall j :: 0 <= j < |jobs| ==> jobs[j].waiter.action == Holding(jobs[j], failing)
      ensures forall v :: v in waiters && v !in Waiters(old(Fires(operations, done))) ==> v.action == old(v.action)
    {
      Split(done);
      var due := operationsDue;
      jobs := JobsOf(due);
      assert jobs == old(JobsOf(Fires(operations, done)));
      effects := FireDue(due, failing, jobs);
    }

    /** The exception block of Loop.cs:391-399: the captured exceptions go to
        `errfn` in order and the list is cleared. */
    method DrainExceptions() returns (effects: seq<Effect>)
      requires Valid()
      modifies this`exceptions
      ensures Valid() && exceptions == []
      ensures effects == Reporting(old(exceptions))
    {
      effects := [];
      if |exceptions| > 0 {
        var i := 0;
        while i < |exceptions|
          invariant 0 <= i <= |exceptions|
          invariant |effects| == i && forall j :: 0 <= j < i ==> effects[j] == Reported(exceptions[j])
        {
          effects := effects + [Reported(exceptions[i])];
          i := i + 1;
        }
        exceptions := [];
      }
    }

    /** The cross-thread block of Loop.cs:403-423: `actions` and `actions_tmp`
        swap under the lock, the taken actions run in order each in its own
        try/catch, and `actions_tmp` is cleared; `arrivals` are the actions
        other threads queue meanwhile. */
    method DrainActions(failing: set<nat>, arrivals: seq<nat>) returns (effects: seq<Effect>)
      requires Valid()
      modifies this`actions, this`actionsDrain
      ensures Valid() && actions == arrivals
      ensures effects == Calls(old(actions), failing)
    {
      effects := [];
      if |actions| > 0 {
        actions, actionsDrain := actionsDrain, actions;
        effects := RunAll(actionsDrain, failing);
        actionsDrain := [];
      }
      assert actions == [] && actions + arrivals == arrivals;
      actions := actions + arrivals;
    }

    /** The recurring block of Loop.cs:427-446: when marked out of date,
        `order` is rebuilt from the callbacks in key order; then every callback
        in `order` runs, each in its own try/catch. */
    method RunRecurring(failing: set<nat>) returns (effects: seq<Effect>)
      requires Valid()
      modifies this`order, this`dirty
      ensures Valid() && !dirty && order == Values(always)
      ensures effects == Calls(Values(always), failing)
    {
      if dirty {
        dirty := false;
        var rebuilt := [];
        var i := 0;
        while i < |always|
          invariant 0 <= i <= |always| && rebuilt == Values(always[..i]) && !dirty
        {
          ValuesSnoc(always[..i], always[i]);
          assert always[..i + 1] == always[..i] + [always[i]];
          rebuilt := rebuilt + [always[i].1];
          i := i + 1;
        }
        assert always[..i] == always;
        order := rebuilt;
      }
      effects := RunAll(order, failing);
    }

    /** The idle block of Loop.cs:453-470: `idles` and `idles_tmp` swap, the
        taken callbacks run in order each in its own try/catch, and
        `idles_tmp` is cleared; `arrivals` are the callbacks `Idle` queues
        meanwhile, which wait for the next tick. */
    method DrainIdles(failing: set<nat>, arrivals: seq<nat>) returns (effects: seq<Effect>)
      requires Valid()
      modifies this`idles, this`idlesDrain
      ensures Valid() && idles == arrivals
      ensures effects == Calls(old(idles), failing)
    {
      effects := [];
      if |idles| > 0 {
        idles, idlesDrain := idlesDrain, idles;
        effects := RunAll(idlesDrain, failing);
        idlesDrain := [];
      }
      assert idles == [] && idles + arrivals == arrivals;
      idles := idles + arrivals;
    }

    /** The second to fourth blocks of `Updater.Update` (Loop.cs:391-446):
        report the captured exceptions, run the cross-thread actions and then
        the recurring callbacks. */
    method Service(failing: set<nat>, arrivals: seq<nat>) returns (effects: seq<Effect>)
      requires Valid()
      modifies this`exceptions, this`actions, this`actionsDrain, this`order, this`dirty
      ensures Valid() && exceptions == [] && actions == arrivals
      ensures !dirty && order == Values(always)
      ensures effects == Reporting(old(exceptions)) + Calls(old(actions), failing) + Calls(Values(always), failing)
    {
      var e2 := DrainExceptions();
      var e3 := DrainActions(failing, arrivals);
      var e4 := RunRecurring(failing);
      effects := e2 + e3 + e4;
    }

    /** The first four blocks of `Updater.Update` (Loop.cs:360-446): poll the
        operations, report the captured exceptions, run the cross-thread
        actions and then the recurring callbacks. */
    method Drain(done: set<nat>, failing: set<nat>, arrivals: seq<nat>) returns (effects: seq<Effect>, ghost jobs: seq<Job>)
      requires Valid()
      modifies this`operations, this`operationsKept, this`operationsDue, this`pools, waiters`action
      modifies this`exceptions, this`actions, this`actionsDrain, this`order, this`dirty
      ensures Valid()
      ensures operations == Keeps(old(operations), done)
      ensures jobs == old(JobsOf(Fires(operations, done)))
      ensures pools == Refill(old(pools), jobs, failing)
      ensures forall j :: 0 <= j < |jobs| ==> jobs[j].waiter.action == Holding(jobs[j], failing)
      ensures forall v :: v in waiters && v !in Waiters(old(Fires(operations, done))) ==> v.action == old(v.action)
      ensures exceptions == [] && actions == arrivals
      ensures !dirty && order == Values(always)
      ensures effects == Emissions(jobs, failing) + Reporting(old(exceptions)) + Calls(old(actions), failing)
        + Calls(Values(always), failing)
    {
      var polled, served;
      polled, jobs := PollOperations(done, failing);
      served := Service(failing, arrivals);
      AppendAssoc(polled, Reporting(old(exceptions)) + Calls(old(actions), failing), Calls(Values(always), failing));
      AppendAssoc(polled, Reporting(old(exceptions)), Calls(old(actions), failing));
      effects := polled + served;
    }

    /** The last two blocks of `Updater.Update` (Loop.cs:449-470): fire the
        due timers of `wheel` at `now`, each callback inside its own try/catch,
        then run the idle callbacks. `jobs` are the waiters fired earlier in
        the frame, whose actions these blocks leave alone. */
    method Finish(wheel: Clocks.Wheel, now: int, failing: set<nat>, arrivals: seq<nat>, ghost jobs: seq<Job>)
      returns (effects: seq<Effect>, ghost fired: seq<Clocks.Entry>, firing: seq<Clocks.Clock>, calls: seq<Clocks.Invocation>)
      requires Valid() && wheel.Valid()
      modifies this`idles, this`idlesDrain, wheel`clocks, wheel`entries, wheel`running, wheel.all`elapsed
      ensures Valid() && wheel.Valid() && idles == arrivals
      ensures wheel.entries == Clocks.Pass(old(wheel.entries), now).0
      ensures fired == Clocks.Pass(old(wheel.entries), now).1 && |firing| == |fired| == |calls|
      ensures forall i :: 0 <= i < |fired| ==> firing[i] in old(wheel.all) && firing[i].index == fired[i].index
      ensures forall i :: 0 <= i < |fired| ==> calls[i] == firing[i].Timeout()
      ensures effects == Calls(CallIds(calls), failing) + Calls(old(idles), failing)
      ensures forall w: Waiter :: old(allocated(w)) ==> w.action == old(w.action)
      ensures forall j :: 0 <= j < |jobs| ==> jobs[j].waiter.action == old(jobs[j].waiter.action)
      ensures unchanged(this`actions, this`exceptions, this`operations, this`pools, this`always, this`order, this`dirty, this`waiters)
    {
      var errors;
      label Timers:
      fired, firing, calls, errors := wheel.Update(now, failing);
      assert unchanged@Timers(this) && unchanged@Timers(waiters);
      var late := DrainIdles(failing, arrivals);
      effects := Calls(CallIds(calls), failing) + late;
    }

    /** `Updater.Update` (Loop.cs:355-472), one frame: the first four blocks,
        then the due timers of `wheel` at `now`, then the idle callbacks.
        `done` names the finished operations, `arrivals` and `idleArrivals`
        what other code queues meanwhile. */
    method Tick(wheel: Clocks.Wheel, now: int, done: set<nat>, failing: set<nat>, arrivals: seq<nat>, idleArrivals: seq<nat>)
      returns (effects: seq<Effect>, ghost jobs: seq<Job>, ghost fired: seq<Clocks.Entry>, firing: seq<Clocks.Clock>,
        calls: seq<Clocks.Invocation>)
      requires Valid() && wheel.Valid()
      modifies this`operations, this`operationsKept, this`operationsDue, this`pools, waiters`action
      modifies this`exceptions, this`actions, this`actionsDrain, this`order, this`dirty
      modifies this`idles, this`idlesDrain, wheel, wheel.all`elapsed
      ensures Valid() && wheel.Valid()
      ensures wheel.entries == Clocks.Pass(old(wheel.entries), now).0
      ensures fired == Clocks.Pass(old(wheel.entries), now).1 && |firing| == |fired| == |calls|
      ensures forall i :: 0 <= i < |fired| ==> firing[i] in old(wheel.all) && firing[i].index == fired[i].index
      ensures forall i :: 0 <= i < |fired| ==> calls[i] == firing[i].Timeout()
      ensures operations == Keeps(old(operations), done)
      ensures jobs == old(JobsOf(Fires(operations, done)))
      ensures pools == Refill(old(pools), jobs, failing)
      ensures forall j :: 0 <= j < |jobs| ==> jobs[j].waiter.action == Holding(jobs[j], failing)
      ensures forall v :: v in waiters && v !in Waiters(old(Fires(operations, done))) ==> v.action == old(v.action)
      ensures exceptions == [] && actions == arrivals && idles == idleArrivals
      ensures !dirty && order == Values(always)
      ensures effects == Emissions(jobs, failing) + Reporting(old(exceptions)) + Calls(old(actions), failing)
        + Calls(Values(always), failing) + (Calls(CallIds(calls), failing) + Calls(old(idles), failing))
    {
      var early, late;
      early, jobs := Drain(done, failing, arrivals);
      late, fired, firing, calls := Finish(wheel, now, failing, idleArrivals, jobs);
      effects := early + late;
    }
  }
}
