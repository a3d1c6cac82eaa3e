/** The continuation engine of Async.cs. A workflow (an `IEnumerable<Async>`)
    is the sequence of what its steps do when driven: each yielded step either
    completes through its continuation, with or without a failure, or never
    calls it, or is a `Result<T>`; or the iterator body itself throws from
    `MoveNext`. The drivers `Run<T>`, `Run` and the fire-and-forget `Run` are
    recursive functions over that sequence. */
module Asyncs {
  import opened Common

  /** An exception: one raised by user code, the `InvalidOperationException`
      of a value workflow that never returned a `Result`, or the one
      `Result<T>.ExecuteStep` throws. */
  datatype Exc = Raised(id: nat) | NoResult | NotExecutable

  /** What driving one element of a workflow does. `Shields` is a primitive
      begun on the loop thread that completes without failure: its callback
      hands `cont(null)` to `Loop.Execute`, so the rest of the run executes
      inside the loop's try/catch (Async.cs:181-212, Loop.cs:58-70). */
  datatype Step =
    | Succeeds(id: nat)         // ExecuteStep calls cont(null), as `Async.Empty` does
    | Shields(id: nat)          // cont(null) is run by `Loop.Execute` inside its try/catch
    | Fails(id: nat, e: nat)    // ExecuteStep calls cont(e)
    | Hangs(id: nat)            // ExecuteStep never calls cont
    | Raises(id: nat, e: nat)   // ExecuteStep itself throws e
    | Returns(t: nat, v: nat)   // a `Result<T>` of type `t` holding `v`
    | Breaks(e: nat)            // `MoveNext` throws `e` instead of yielding

  /** How a run ends: its continuation is called once with a value
      (`None` is `default(T)`) and a failure (`None` is null), or an exception
      escapes to the caller of `ExecuteStep`, or it is caught by `Loop.Execute`
      and handed to the loop's `errfn` (and `cont` is never called), or the run
      waits forever. */
  datatype End = Completes(value: Option<nat>, failure: Option<Exc>) | Escapes(e: Exc) | Caught(e: Exc) | Stalls

  /** The steps with an id whose `ExecuteStep` was called, in order, and how
      the run ended. A `Result<T>` whose `ExecuteStep` is called (and throws)
      has no id and is not listed; the run's end records it. */
  datatype Trace = Trace(executed: seq<nat>, end: End)

  predicate Succeeding(ws: seq<Step>)
  {
    forall i :: 0 <= i < |ws| ==> ws[i].Succeeds?
  }

  /** The identities of a sequence of succeeding steps. */
  function Ids(ws: seq<Step>): (r: seq<nat>)
    requires Succeeding(ws)
    ensures |r| == |ws| && forall i :: 0 <= i < |ws| ==> r[i] == ws[i].id
  {
    if ws == [] then [] else [ws[0].id] + Ids(ws[1..])
  }

  function After(ids: seq<nat>, t: Trace): Trace
  {
    Trace(ids + t.executed, t.end)
  }

  /** The rest of a run executed inside `Loop.Execute`'s try/catch: an
      exception escaping it goes to the loop's `errfn` instead. */
  function Shelter(t: Trace): Trace
  {
    if t.end.Escapes? then Trace(t.executed, Caught(t.end.e)) else t
  }

  /** `AsyncExtensions.Run(iterator, cont)` (Async.cs:670-691). */
  function RunPlain(ws: seq<Step>): (r: Trace)
    ensures |r.executed| <= |ws|
  {
    if ws == [] then Trace([], Completes(None, None))
    else
      match ws[0]
      case Breaks(e) => Trace([], Completes(None, Some(Raised(e))))
      case Returns(_, _) => Trace([], Escapes(NotExecutable))
      case Hangs(id) => Trace([id], Stalls)
      case Raises(id, e) => Trace([id], Escapes(Raised(e)))
      case Fails(id, e) => Trace([id], Completes(None, Some(Raised(e))))
      case Succeeds(id) => After([id], RunPlain(ws[1..]))
      case Shields(id) => After([id], Shelter(RunPlain(ws[1..])))
  }

  /** `AsyncExtensions.Run<T>(iterator, cont)` (Async.cs:632-668) for the type
      `want`: a `Result<T>` of another type is not recognised, so its
      `ExecuteStep` is called and throws. */
  function RunFor(ws: seq<Step>, want: nat): (r: Trace)
    ensures |r.executed| <= |ws|
  {
    if ws == [] then Trace([], Completes(None, Some(NoResult)))
    else
      match ws[0]
      case Breaks(e) => Trace([], Completes(None, Some(Raised(e))))
      case Returns(t, v) =>
        if t == want then Trace([], Completes(Some(v), None)) else Trace([], Escapes(NotExecutable))
      case Hangs(id) => Trace([id], Stalls)
      case Raises(id, e) => Trace([id], Escapes(Raised(e)))
      case Fails(id, e) => Trace([id], Completes(None, Some(Raised(e))))
      case Succeeds(id) => After([id], RunFor(ws[1..], want))
      case Shields(id) => After([id], Shelter(RunFor(ws[1..], want)))
  }

  /** How a fire-and-forget run ends: the iterator is exhausted, a failure is
      handed to `Async.errfn`, it waits forever, an exception escapes, or an
      exception is caught by `Loop.Execute` and handed to the loop's `errfn`. */
  datatype Outcome = Exhausted | Reported(e: Exc) | Stuck | Thrown(e: Exc) | LoopReported(e: Exc)

  datatype Fate = Fate(executed: seq<nat>, outcome: Outcome)

  /** The fire-and-forget `Run(iterator)` (Async.cs:693-713) behind
      `Execute()`: it has no continuation, and reports failures itself. */
  function Forget(ws: seq<Step>): (r: Fate)
    ensures |r.executed| <= |ws|
  {
    if ws == [] then Fate([], Exhausted)
    else
      match ws[0]
      case Breaks(e) => Fate([], Reported(Raised(e)))
      case Returns(_, _) => Fate([], Thrown(NotExecutable))
      case Hangs(id) => Fate([id], Stuck)
      case Raises(id, e) => Fate([id], Thrown(Raised(e)))
      case Fails(id, e) => Fate([id], Reported(Raised(e)))
      case Succeeds(id) =>
        var f := Forget(ws[1..]);
        Fate([id] + f.executed, f.outcome)
      case Shields(id) =>
        var f := Forget(ws[1..]);
        Fate([id] + f.executed, if f.outcome.Thrown? then LoopReported(f.outcome.e) else f.outcome)
  }

  /** What a run does whose continuation hands a non-null failure to
      `Async.errfn` and ignores null (Async.cs:700-711). */
  function Fated(t: Trace): Fate
  {
    match t.end
    case Completes(_, None) => Fate(t.executed, Exhausted)
    case Completes(_, Some(e)) => Fate(t.executed, Reported(e))
    case Escapes(e) => Fate(t.executed, Thrown(e))
    case Caught(e) => Fate(t.executed, LoopReported(e))
    case Stalls => Fate(t.executed, Stuck)
  }

  /** Leading succeeding steps are executed in order and then the run goes on
      as the rest of the workflow alone. */
  lemma {:induction false} RunPlainSkip(a: seq<Step>, b: seq<Step>)
    requires Succeeding(a)
    ensures RunPlain(a + b) == After(Ids(a), RunPlain(b))
  {
    if a == [] {
      assert a + b == b;
    } else {
      assert (a + b)[0] == a[0] && (a + b)[1..] == a[1..] + b;
      RunPlainSkip(a[1..], b);
    }
  }

  lemma {:induction false} RunForSkip(a: seq<Step>, b: seq<Step>, want: nat)
    requires Succeeding(a)
    ensures RunFor(a + b, want) == After(Ids(a), RunFor(b, want))
  {
    if a == [] {
      assert a + b == b;
    } else {
      assert (a + b)[0] == a[0] && (a + b)[1..] == a[1..] + b;
      RunForSkip(a[1..], b, want);
    }
  }

  /** `Run` stops at the first step that does not continue: nothing after it is
      executed, a failure goes to `cont`, an exception thrown by a step's
      `ExecuteStep` escapes to the caller, and a `Result` makes its
      `ExecuteStep` throw. */
  lemma RunPlainStops(a: seq<Step>, s: Step, b: seq<Step>)
    requires Succeeding(a) && !s.Succeeds? && !s.Shields?
    ensures RunPlain(a + [s] + b) == After(Ids(a), RunPlain([s]))
    ensures s.Fails? ==> RunPlain(a + [s] + b) == Trace(Ids(a) + [s.id], Completes(None, Some(Raised(s.e))))
    ensures s.Breaks? ==> RunPlain(a + [s] + b) == Trace(Ids(a), Completes(None, Some(Raised(s.e))))
    ensures s.Raises? ==> RunPlain(a + [s] + b) == Trace(Ids(a) + [s.id], Escapes(Raised(s.e)))
    ensures s.Returns? ==> RunPlain(a + [s] + b).end == Escapes(NotExecutable)
  {
    assert a + [s] + b == a + ([s] + b);
    RunPlainSkip(a, [s] + b);
  }

  /** A step completed through `Loop.Execute` goes on with the rest of the run
      inside the loop's try/catch: an exception escaping the rest, such as one
      thrown by a later `ExecuteStep`, goes to the loop's `errfn` and does not
      reach the caller; any other ending is unchanged. */
  lemma RunPlainShields(a: seq<Step>, id: nat, b: seq<Step>)
    requires Succeeding(a)
    ensures RunPlain(a + [Shields(id)] + b).executed == Ids(a) + [id] + RunPlain(b).executed
    ensures RunPlain(b).end.Escapes? ==> RunPlain(a + [Shields(id)] + b).end == Caught(RunPlain(b).end.e)
    ensures !RunPlain(b).end.Escapes? ==> RunPlain(a + [Shields(id)] + b).end == RunPlain(b).end
    ensures !RunPlain(a + [Shields(id)] + b).end.Escapes?
  {
    assert a + [Shields(id)] + b == a + ([Shields(id)] + b);
    RunPlainSkip(a, [Shields(id)] + b);
    assert ([Shields(id)] + b)[1..] == b;
  }

  /** Exhausting a workflow whose steps all succeed calls `cont(null)` once
      after every step ran; `Run<T>` instead reports the missing `Result`. */
  lemma RunExhausts(ws: seq<Step>, want: nat)
    requires Succeeding(ws)
    ensures RunPlain(ws) == Trace(Ids(ws), Completes(None, None))
    ensures RunFor(ws, want) == Trace(Ids(ws), Completes(None, Some(NoResult)))
  {
    RunPlainSkip(ws, []);
    RunForSkip(ws, [], want);
    assert ws + [] == ws && Ids(ws) + [] == Ids(ws);
  }

  /** `Run<T>` completes with the value of the first `Result<T>` and never
      advances the iterator past it. */
  lemma RunForResult(a: seq<Step>, v: nat, b: seq<Step>, want: nat)
    requires Succeeding(a)
    ensures RunFor(a + [Returns(want, v)] + b, want) == Trace(Ids(a), Completes(Some(v), None))
  {
    assert a + [Returns(want, v)] + b == a + ([Returns(want, v)] + b);
    RunForSkip(a, [Returns(want, v)] + b, want);
    assert Ids(a) + [] == Ids(a);
  }

  /** A failing step fails `Run<T>` with `default(T)`, as it fails `Run`. */
  lemma RunForStops(a: seq<Step>, id: nat, e: nat, b: seq<Step>, want: nat)
    requires Succeeding(a)
    ensures RunFor(a + [Fails(id, e)] + b, want) == Trace(Ids(a) + [id], Completes(None, Some(Raised(e))))
  {
    assert a + [Fails(id, e)] + b == a + ([Fails(id, e)] + b);
    RunForSkip(a, [Fails(id, e)] + b, want);
  }

  /** The fire-and-forget `Run` behaves as `Run` with a continuation that hands
      a non-null failure to `errfn`. */
  lemma {:induction false} ForgetRun(ws: seq<Step>)
    ensures Forget(ws) == Fated(RunPlain(ws))
  {
    if ws != [] && (ws[0].Succeeds? || ws[0].Shields?) {
      ForgetRun(ws[1..]);
    }
  }

  // ---------------------------------------------------------------------------
  // Failure policy

  /** The continuation of `ReturnResult`/`ReturnNothing` (Async.cs:438-449,
      470-479): with `failOnError` or no failure, `cont` gets the failure;
      otherwise the failure goes to `errfn` and `cont` gets null. Returns what
      `cont` gets and what `errfn` gets. */
  function Policy(failOnError: bool, failure: Option<Exc>): (Option<Exc>, Option<Exc>)
  {
    if failOnError || failure.None? then (failure, None) else (None, failure)
  }

  /** A failure reaches exactly one of `cont` and `errfn`, and `cont` never sees
      one when `failOnError` is off. */
  lemma PolicyDelivers(failOnError: bool, failure: Option<Exc>)
    ensures var (c, rep) := Policy(failOnError, failure);
      && (c.Some? || rep.Some? <==> failure.Some?)
      && !(c.Some? && rep.Some?)
      && (c.Some? ==> c == failure) && (rep.Some? ==> rep == failure)
      && (!failOnError ==> c.None?)
  {
  }

  /** What an `ExecuteStep` does to its caller: it calls `cont` once with a
      failure or null, throws, or never calls `cont`. */
  datatype Signal = Continues(failure: Option<Exc>) | Throws(e: Exc) | Silent

  /** One `ExecuteStep` of a nested workflow: the steps it executed, the signal
      to its own caller, what it handed to `errfn`, and what `Loop.Execute`
      caught inside it and handed to the loop's `errfn`. */
  datatype Exit = Exit(executed: seq<nat>, signal: Signal, reported: Option<Exc>, caught: Option<Exc>)

  /** The continuation applied to how the nested run ended. */
  function Conclude(t: Trace, failOnError: bool): Exit
  {
    match t.end
    case Completes(_, f) => Exit(t.executed, Continues(Policy(failOnError, f).0), Policy(failOnError, f).1, None)
    case Escapes(e) => Exit(t.executed, Throws(e), None, None)
    case Caught(e) => Exit(t.executed, Silent, None, Some(e))
    case Stalls => Exit(t.executed, Silent, None, None)
  }

  /** `ReturnNothing.ExecuteStep` (Async.cs:466-480). */
  function ReturnNothing(ws: seq<Step>, failOnError: bool): Exit
  {
    Conclude(RunPlain(ws), failOnError)
  }

  /** `ExecuteAsync(false)` on a workflow whose steps succeed up to a failing
      one: the failure goes to `errfn` and the outer workflow continues; with
      `failOnError` it fails the outer step instead. */
  lemma ReturnNothingFailure(a: seq<Step>, id: nat, e: nat, b: seq<Step>, failOnError: bool)
    requires Succeeding(a)
    ensures var x := ReturnNothing(a + [Fails(id, e)] + b, failOnError);
      && x.executed == Ids(a) + [id]
      && (failOnError ==> x.signal == Continues(Some(Raised(e))) && x.reported == None)
      && (!failOnError ==> x.signal == Continues(None) && x.reported == Some(Raised(e)))
  {
    RunPlainStops(a, Fails(id, e), b);
  }

  /** `Async<T>.Result` (Async.cs:508-516): the value, or the exception thrown
      when the operation has not completed. */
  datatype Read = Value(v: Option<nat>) | NotCompleted

  /** Reading `Result` of an operation with fields `completed` and `result`. */
  function ResultOf(completed: bool, result: Option<nat>): (r: Read)
    ensures r.Value? <==> completed
    ensures r.Value? ==> r.v == result
  {
    if completed then Value(result) else NotCompleted
  }

  /** `Async.ReturnResult<T>` (Async.cs:421-451): runs a nested value workflow
      and records its result before continuing. */
  class ReturnResult {
    const steps: seq<Step>
    const want: nat
    const failOnError: bool
    var result: Option<nat>
    var completed: bool

    constructor (steps: seq<Step>, want: nat, failOnError: bool)
      ensures this.steps == steps && this.want == want && this.failOnError == failOnError
      ensures result == None && !completed
    {
      this.steps, this.want, this.failOnError := steps, want, failOnError;
      result, completed := None, false;
    }

    /** `ExecuteStep` (Async.cs:434-450): when the nested run completes, the
        value is stored and `completed` set, even on failure, before the
        failure policy applies. */
    method ExecuteStep() returns (x: Exit)
      modifies this`result, this`completed
      ensures var t := RunFor(steps, want);
        && x == Conclude(t, failOnError)
        && (t.end.Completes? ==> completed && result == t.end.value)
        && (!t.end.Completes? ==> completed == old(completed) && result == old(result))
    {
      var t := RunFor(steps, want);
      if t.end.Completes? {
        result := t.end.value;
        completed := true;
      }
      x := Conclude(t, failOnError);
    }
  }

  /** Running a nested value workflow that returns `v` stores `v`, and reading
      `Result` afterwards gives it. */
  method ReturnResultThenRead(a: seq<Step>, v: nat, b: seq<Step>, want: nat) returns (x: Exit, r: Read)
    requires Succeeding(a)
    ensures x == Exit(Ids(a), Continues(None), None, None) && r == Value(Some(v))
  {
    var rr := new ReturnResult(a + [Returns(want, v)] + b, want, true);
    RunForResult(a, v, b, want);
    x := rr.ExecuteStep();
    r := ResultOf(rr.completed, rr.result);
  }

  // ---------------------------------------------------------------------------
  // Primitive steps

  /** When and on which thread the wrapped action calls its callback, and with
      what value and failure (`None`: `default(T)`, null). `Inline`: before the
      action returns, on the thread that ran `ExecuteStep`. `Later`: after
      `ExecuteStep` has returned, on the loop thread or on another one. */
  datatype Delivery =
    | Never
    | Inline(value: Option<nat>, failure: Option<Exc>)
    | Later(onLoop: bool, value: Option<nat>, failure: Option<Exc>)

  /** Whether the callback itself runs on the loop thread. */
  function CallbackOnLoop(isMain: bool, d: Delivery): bool
    requires !d.Never?
  {
    if d.Inline? then isMain else d.onLoop
  }

  /** How a primitive's callback reaches `cont`: never; by a plain call, so an
      exception from `cont` goes to whoever called the callback; at once by
      `Loop.Execute` inside its try/catch; or queued by `Loop.Execute` and run
      by the next tick inside its own try/catch. */
  datatype Route = Idle | Direct | Guarded | Queued

  /** Async.cs:181-212: `ExecuteStep` remembers whether it ran on the loop
      thread; if so the completion is passed to `Loop.Execute`, which runs it
      at once on the loop thread and queues it for the next tick from any
      other (Loop.cs:58-78); otherwise `cont` is called directly. */
  function RouteOf(isMain: bool, d: Delivery): (r: Route)
  {
    if d.Never? then Idle
    else if !isMain then Direct
    else if CallbackOnLoop(isMain, d) then Guarded
    else Queued
  }

  /** Whether an exception thrown by `cont` is caught by the loop and handed
      to its `errfn` rather than thrown at the callback's caller. */
  predicate LoopCatches(r: Route)
  {
    r == Guarded || r == Queued
  }

  /** The point of the `Loop.Execute` wrapper: a step begun on the loop thread
      completes on the loop thread, at once when the callback is already
      there and through the queue only when it is not, and either way under
      the loop's try/catch; a step begun elsewhere completes by a plain call
      on the callback's own thread. */
  lemma RouteDefers(isMain: bool, d: Delivery)
    ensures RouteOf(isMain, d) == Idle <==> d.Never?
    ensures RouteOf(isMain, d) == Direct <==> !d.Never? && !isMain
    ensures !d.Never? && isMain ==> (RouteOf(isMain, d) == Guarded <==> CallbackOnLoop(isMain, d))
    ensures !d.Never? && isMain ==> (RouteOf(isMain, d) == Queued <==> !CallbackOnLoop(isMain, d))
    ensures LoopCatches(RouteOf(isMain, d)) <==> !d.Never? && isMain
    ensures d.Inline? ==> RouteOf(isMain, d) == if isMain then Guarded else Direct
  {
  }

  /** The begin/end adapter (Async.cs:162-175, 232-246): `end` either returns a
      value or throws. */
  datatype EndCall = Ends(v: nat) | EndThrows(e: nat)

  /** What the adapter passes to the callback: an exception thrown by `end` is
      the failure, and then the value is `default(T)`. */
  function Adapted(c: EndCall): (Option<nat>, Option<Exc>)
  {
    match c
    case Ends(v) => (Some(v), None)
    case EndThrows(e) => (None, Some(Raised(e)))
  }

  /** `Async.Primitive` (Async.cs:177-214): the signal to `cont` while
      `ExecuteStep` runs; `Silent` when the callback comes later or never. */
  function Primitive(isMain: bool, d: Delivery): Signal
  {
    if d.Inline? then Continues(d.failure) else Silent
  }

  /** `Async.Primitive<T>` (Async.cs:217-294). */
  class PrimitiveOf {
    var result: Option<nat>
    var completed: bool

    constructor ()
      ensures result == None && !completed
    {
      result, completed := None, false;
    }

    /** The completion closure (Async.cs:259-261): store the value, mark the
        operation completed, then continue with the failure. */
    method Complete(value: Option<nat>, failure: Option<Exc>) returns (s: Signal)
      modifies this`result, this`completed
      ensures result == value && completed && s == Continues(failure)
    {
      result := value;
      completed := true;
      s := Continues(failure);
    }

    /** `ExecuteStep`: an inline callback completes the step before the action
        returns, through `Loop.Execute` at once when begun on the loop thread
        and by a plain call otherwise; otherwise nothing has happened yet. */
    method ExecuteStep(isMain: bool, d: Delivery) returns (s: Signal)
      modifies this`result, this`completed
      ensures s == Primitive(isMain, d)
      ensures d.Inline? ==> result == d.value && completed
      ensures !d.Inline? ==> result == old(result) && completed == old(completed)
    {
      s := Silent;
      if d.Inline? {
        s := Complete(d.value, d.failure);
      }
    }

    /** The callback of a `Later` delivery: onto a step begun on the loop
        thread from another thread it is queued with `Loop.Execute` and
        completes when the loop drains it (through `Complete`); otherwise it
        completes on the spot. */
    method Callback(isMain: bool, d: Delivery) returns (s: Signal, queued: bool)
      requires d.Later?
      modifies this`result, this`completed
      ensures queued <==> isMain && !d.onLoop
      ensures !queued ==> result == d.value && completed && s == Continues(d.failure)
      ensures queued ==> result == old(result) && completed == old(completed) && s == Silent
    {
      queued := RouteOf(isMain, d) == Queued;
      s := Silent;
      if !queued {
        s := Complete(d.value, d.failure);
      }
    }
  }

  /** A `Primitive<T>` whose callback delivers a value: reading `Result` right
      after `ExecuteStep` gives that value only when the callback ran inline. */
  method PrimitiveThenRead(isMain: bool, d: Delivery) returns (r: Read)
    ensures d.Inline? ==> r == Value(d.value)
    ensures !d.Inline? ==> r == NotCompleted
  {
    var p := new PrimitiveOf();
    var s := p.ExecuteStep(isMain, d);
    r := ResultOf(p.completed, p.result);
  }

  /** A callback that comes after `ExecuteStep` returned: `Result` throws
      before it, gives the value once it ran unless it was queued for the
      loop, and gives the value once the loop has drained it. */
  method PrimitiveLaterThenRead(isMain: bool, onLoop: bool, value: Option<nat>, failure: Option<Exc>)
    returns (before: Read, atCallback: Read, afterDrain: Read)
    ensures before == NotCompleted
    ensures atCallback == if isMain && !onLoop then NotCompleted else Value(value)
    ensures afterDrain == Value(value)
  {
    var d := Later(onLoop, value, failure);
    var p := new PrimitiveOf();
    var s := p.ExecuteStep(isMain, d);
    before := ResultOf(p.completed, p.result);
    var queued;
    s, queued := p.Callback(isMain, d);
    atCallback := ResultOf(p.completed, p.result);
    if queued {
      s := p.Complete(d.value, d.failure);
    }
    afterDrain := ResultOf(p.completed, p.result);
  }

  /** A begin/end primitive whose callback runs inline: the step continues
      with the exception `end` threw and `Result` reads `default(T)`, or with
      no failure and the value `end` returned. */
  method BeginEndThenRead(isMain: bool, c: EndCall) returns (s: Signal, r: Read)
    ensures c.EndThrows? ==> s == Continues(Some(Raised(c.e))) && r == Value(None)
    ensures c.Ends? ==> s == Continues(None) && r == Value(Some(c.v))
  {
    var (value, failure) := Adapted(c);
    var p := new PrimitiveOf();
    s := p.ExecuteStep(isMain, Inline(value, failure));
    r := ResultOf(p.completed, p.result);
  }

  /** `Async.Empty` (Async.cs:483-494): its `ExecuteStep` continues at once with
      no failure; its constructor stores a result but never sets `completed`. */
  class EmptyStep {
    var result: Option<nat>
    var completed: bool

    constructor ()
      ensures result == Some(0) && !completed
    {
      result, completed := Some(0), false;
    }

    method ExecuteStep() returns (s: Signal)
      ensures s == Continues(None)
    {
      s := Continues(None);
    }
  }

  /** `Async.Error(fn)` (Async.cs:60-79): the error sink of the engine,
      separate from the loop's; `None` is the default that ignores every
      exception. */
  class Sink {
    var handler: Option<nat>

    constructor ()
      ensures handler == None
    {
      handler := None;
    }

    method Error(fn: Option<nat>)
      modifies this
      ensures handler == fn
    {
      handler := fn;
    }
  }

  // ---------------------------------------------------------------------------
  // Parallel

  /** A branch sets its flag when its iterator is exhausted, that is when the
      code after the `foreach` in `ExecuteAndSet` (Async.cs:134-144) runs. */
  predicate Finishes(branch: seq<Step>)
  {
    Forget(branch).outcome.Exhausted?
  }

  /** The flag scan of `ExecuteAndSet` (Async.cs:141): true unless some flag
      is clear, stopping at the first clear one. */
  method AllSet(flags: array<bool>) returns (all: bool)
    ensures all <==> forall j :: 0 <= j < flags.Length ==> flags[j]
  {
    all := true;
    var j := 0;
    while j < flags.Length
      invariant 0 <= j <= flags.Length
      invariant forall k :: 0 <= k < j ==> flags[k]
    {
      if !flags[j] {
        all := false;
        break;
      }
      j := j + 1;
    }
  }

  /** The lock in `ExecuteAndSet`: set this branch's flag, then see whether
      every flag is set. */
  method Arrive(flags: array<bool>, i: nat) returns (all: bool)
    requires i < flags.Length
    modifies flags
    ensures flags[..] == old(flags[..])[i := true]
    ensures all <==> forall j :: 0 <= j < flags.Length ==> flags[j]
  {
    flags[i] := true;
    all := AllSet(flags);
  }

  /** The failures the branches before `n` hand to `Async.errfn`, in order. */
  function Failures(branches: seq<seq<Step>>, n: nat): seq<Exc>
    requires n <= |branches|
  {
    if n == 0 then []
    else
      var o := Forget(branches[n - 1]).outcome;
      Failures(branches, n - 1) + (if o.Reported? then [o.e] else [])
  }

  /** `Async.Parallel` (Async.cs:123-144) with its branches driven in index
      order: each branch runs through the fire-and-forget `Run`, so a failing
      one reports to `errfn` and never sets its flag; the continuation fires
      from the branch that sets the last flag. An exception escaping a branch
      stops the loop. */
  method Parallel(branches: seq<seq<Step>>) returns (fired: nat, reported: seq<Exc>, escaped: Option<Exc>)
    ensures fired <= 1
    ensures fired == 1 <==> |branches| > 0 && forall j :: 0 <= j < |branches| ==> Finishes(branches[j])
    ensures escaped.None? ==> reported == Failures(branches, |branches|)
  {
    var flags := new bool[|branches|](_ => false);
    fired, reported, escaped := 0, [], None;
    var i := 0;
    while i < |branches| && escaped.None?
      invariant 0 <= i <= |branches| == flags.Length
      invariant forall j :: 0 <= j < |branches| ==> (flags[j] <==> j < i && Finishes(branches[j]))
      invariant fired <= 1
      invariant fired == 1 <==> i == |branches| > 0 && forall j :: 0 <= j < i ==> Finishes(branches[j])
      invariant escaped.None? ==> reported == Failures(branches, i)
      invariant escaped.Some? ==> 0 < i && !Finishes(branches[i - 1])
    {
      var f := Forget(branches[i]);
      match f.outcome {
        case Exhausted =>
          var all := Arrive(flags, i);
          if all {
            assert forall j :: 0 <= j <= i ==> Finishes(branches[j]) by {
              forall j | 0 <= j <= i ensures Finishes(branches[j]) {
                assert flags[j];
              }
            }
            assert flags[|branches| - 1];
            fired := fired + 1;
          } else if i + 1 == |branches| {
            var j :| 0 <= j < flags.Length && !flags[j];
            assert !Finishes(branches[j]);
          }
        case Reported(e) =>
          reported := reported + [e];
        case Stuck =>
        case LoopReported(e) =>
        case Thrown(e) =>
          escaped := Some(e);
      }
      i := i + 1;
    }
  }
}
