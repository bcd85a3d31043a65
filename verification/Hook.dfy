/**
 * The instruction hook (sandbox.zig:1394-1515): every bytecode fetch records limit breaches, may
 * deliver a termination where it can be caught, enforces what is pending, and pays for itself. The
 * main results bound how long a recorded cause can go without being raised.
 */
module Hook {
  import opened Gas
  import opened Results

  const HANDLER_GRACE: nat := 1024
  const UNCOVERED_WAIT_LIMIT: nat := 4096
  const CLOCK_BATCH: nat := 1024

  datatype Kind = Script | Deadline | GasOut | Memory | CallDepth

  /** selectedTermination: one cause speaks for all of them. */
  function Selected(bits: set<Kind>): Option<Kind> {
    if Memory in bits then Some(Memory)
    else if Script in bits then Some(Script)
    else if Deadline in bits then Some(Deadline)
    else if CallDepth in bits then Some(CallDepth)
    else if GasOut in bits then Some(GasOut)
    else None
  }

  /** Something is selected exactly when a cause is recorded, and gas only speaks when it is alone. */
  lemma SelectedSpeaks(bits: set<Kind>)
    ensures Selected(bits).None? <==> bits == {}
    ensures Selected(bits).Some? ==> Selected(bits).value in bits
    ensures Selected(bits) == Some(GasOut) <==> bits == {GasOut}
  {
    forall k | k in bits ensures Selected(bits).Some? && (k != GasOut ==> Selected(bits) != Some(GasOut)) {
      match k
      case Script =>
      case Deadline =>
      case GasOut =>
      case Memory =>
      case CallDepth =>
    }
  }

  /** How far the delivery of a recorded cause has got. */
  datatype Alarm = Alarm(pending: bool, waits: nat, grace: nat, armed: bool)

  const CALM := Alarm(false, 0, 0, false)

  /** The hook's state, owned by the running thread but for the cause bits. */
  datatype Watch = Watch(
    bits: set<Kind>, alarm: Alarm, meter: Option<Meter>, gasRemaining: nat, depthLimit: Option<nat>, peakDepth: nat,
    clockCountdown: nat)

  /**
   * What one fetch finds outside the hook: the interpreter's depth and exception, whether the program
   * counter is covered, and what the clock would say. Other threads may call `terminate`, or publish
   * a memory breach of the cell, before the hook decides on delivery (`terminated`, `anyOom`) or
   * between that and its last look at the cause bits (`terminatedLate`, `anyOomLate`); `hardOom` is
   * the flag as read after that look.
   */
  datatype Fetch = Fetch(
    anyOom: bool, anyOomLate: bool, hardOom: bool, depth: int, unwinding: bool, catchable: bool,
    terminated: bool, terminatedLate: bool, expired: bool)

  function When(holds: bool, kind: Kind): set<Kind> {
    if holds then {kind} else {}
  }

  predicate TooDeep(limit: Option<nat>, depth: int) {
    limit.Some? && depth > 0 && depth > limit.value
  }

  /** The causes on record once this fetch's limit conditions are. */
  function Causes(w: Watch, f: Fetch): set<Kind> {
    w.bits + When(f.terminated, Script) + When(f.anyOom, Memory)
    + When(w.meter.Some? && Empty(w.meter.value), GasOut) + When(TooDeep(w.depthLimit, f.depth), CallDepth)
  }

  function Recorded(w: Watch, f: Fetch): Watch {
    w.(bits := Causes(w, f),
       meter := if w.meter.Some? then Some(Observed(w.meter.value)) else None,
       peakDepth := if w.depthLimit.Some? && f.depth > 0 && f.depth > w.peakDepth then f.depth else w.peakDepth)
  }

  /** Whether an armed raise may go out at this fetch. */
  predicate Ready(a: Alarm, f: Fetch) {
    a.pending && !f.unwinding && a.grace == 0
  }

  predicate Due(a: Alarm, f: Fetch) {
    f.catchable || a.waits >= UNCOVERED_WAIT_LIMIT
  }

  /** terminationException: grace is granted once per arming. */
  function Raised(a: Alarm): Alarm {
    if a.armed then a else a.(grace := HANDLER_GRACE, armed := true)
  }

  /** Deliver an armed termination, wait for a catchable fetch, or do nothing. */
  function Deliver(a: Alarm, f: Fetch, cause: bool): (Alarm, bool) {
    if !Ready(a, f) then (a, false)
    else if !Due(a, f) then (a.(waits := a.waits + 1), false)
    else if cause then (Raised(a.(pending := false, waits := 0)), true)
    else (a.(pending := false, waits := 0), false)
  }

  /** Enforce any pending termination: spend grace, or arm the next raise. */
  function Enforce(a: Alarm, f: Fetch, cause: bool): Alarm {
    if !cause || f.unwinding then a
    else if a.grace > 0 then a.(grace := a.grace - 1)
    else a.(pending := true)
  }

  /** Charge the fetch and count down to the next look at the clock. */
  function Paid(w: Watch, f: Fetch): Watch {
    var w1 := if w.meter.None? then w
              else w.(meter := Some(Charged(w.meter.value)), gasRemaining := Charged(w.meter.value).remaining);
    if w1.clockCountdown > 1 then w1.(clockCountdown := w1.clockCountdown - 1)
    else w1.(clockCountdown := CLOCK_BATCH, bits := w1.bits + When(f.expired, Deadline))
  }

  /** What arrives between the delivery stage and the enforcement stage. */
  function Late(f: Fetch): set<Kind> {
    When(f.terminatedLate, Script) + When(f.anyOomLate, Memory)
  }

  /** One call of the hook: the new state, and the policy exception it returns, if any. */
  function Step(w: Watch, f: Fetch): (Watch, Option<Kind>) {
    var w1 := Recorded(w, f);
    var (alarm, raised) := Deliver(w1.alarm, f, w1.bits != {});
    if raised then (w1.(bits := w1.bits + When(f.terminatedLate, Script), alarm := alarm), Selected(w1.bits))
    else
      var bits := w1.bits + Late(f);
      var w2 := w1.(bits := bits, alarm := Enforce(alarm, f, bits != {}));
      if bits != {} && f.hardOom then (w2, None) else (Paid(w2, f), None)
  }

  // ---- the hook as the program runs it -------------------------------------------------------

  class Isolate {
    var bits: set<Kind>
    var raisePending: bool
    var uncoveredWaits: nat
    var handlerGrace: nat
    var graceArmed: bool
    var meter: Option<Meter>
    var gasRemaining: nat
    const depthLimit: Option<nat>
    var peakDepth: nat
    var clockCountdown: nat

    constructor (policy: Policy, depthLimit: Option<nat>)
      ensures View() == Watch({}, CALM, Init(policy), match policy case Unlimited => 0 case _ => policy.limit,
                              depthLimit, 0, CLOCK_BATCH)
    {
      this.depthLimit := depthLimit;
      bits, raisePending, uncoveredWaits, handlerGrace, graceArmed := {}, false, 0, 0, false;
      meter := Init(policy);
      gasRemaining := match policy case Unlimited => 0 case _ => policy.limit;
      peakDepth, clockCountdown := 0, CLOCK_BATCH;
    }

    function View(): Watch
      reads this
    {
      Watch(bits, Alarm(raisePending, uncoveredWaits, handlerGrace, graceArmed), meter, gasRemaining, depthLimit,
            peakDepth, clockCountdown)
    }

    /** noteTerm. */
    method NoteTerm(kind: Kind)
      modifies this`bits
      ensures bits == old(bits) + {kind}
    {
      bits := bits + {kind};
    }

    /** currentTermination: a load of the cause bits, with whatever has arrived by then. */
    method CurrentTermination(anyOom: bool) returns (kind: Option<Kind>)
      modifies this`bits
      ensures bits == old(bits) + (if anyOom then {Memory} else {}) && kind == Selected(bits)
    {
      if anyOom {
        NoteTerm(Memory);
      }
      kind := Selected(bits);
    }

    /** terminationException. */
    method TerminationException(kind: Kind)
      modifies this`bits, this`handlerGrace, this`graceArmed
      ensures View().alarm == Raised(old(View().alarm)) && bits == old(bits) + {kind}
    {
      NoteTerm(kind);
      if !graceArmed {
        handlerGrace := HANDLER_GRACE;
        graceArmed := true;
      }
    }

    method Record(f: Fetch)
      modifies this`bits, this`meter, this`peakDepth
      ensures View() == Recorded(old(View()), f)
    {
      ghost var w := View();
      if f.terminated {
        NoteTerm(Script);
      }
      if f.anyOom {
        NoteTerm(Memory);
      }
      if meter.Some? {
        var empty := Empty(meter.value);
        meter := Some(Observed(meter.value));
        if empty {
          NoteTerm(GasOut);
        }
      }
      if depthLimit.Some? && f.depth > 0 {
        if f.depth > peakDepth {
          peakDepth := f.depth;
        }
        if f.depth > depthLimit.value {
          NoteTerm(CallDepth);
        }
      }
      assert bits == Causes(w, f);
    }

    /** fetchHook. */
    method FetchHook(f: Fetch) returns (raised: Option<Kind>)
      modifies this
      ensures (View(), raised) == Step(old(View()), f)
    {
      hide Recorded, Causes, Raised, Paid, Selected, Deliver;
      Record(f);
      ghost var w1 := View();
      MemoryRecorded(old(View()), f);
      assert w1 == Recorded(old(View()), f);
      SelectedSpeaks(w1.bits);
      raised := DeliverArmed(f);
      ghost var alarm := Deliver(w1.alarm, f, w1.bits != {}).0;
      assert View() == w1.(alarm := alarm);
      if f.terminatedLate {
        NoteTerm(Script);
      }
      assert View() == w1.(bits := w1.bits + When(f.terminatedLate, Script), alarm := alarm);
      if raised.Some? {
        return;
      }
      var over := EnforcePending(f);
      assert w1.bits + When(f.terminatedLate, Script) + When(f.anyOomLate, Memory) == w1.bits + Late(f);
      if over {
        return None;
      }
      Pay(f);
      raised := None;
    }

    /** The enforcement stage of fetchHook; `over` when memory is gone and nothing more is accounted. */
    method EnforcePending(f: Fetch) returns (over: bool)
      requires f.anyOom ==> Memory in bits
      modifies this`bits, this`raisePending, this`handlerGrace
      ensures bits == old(bits) + When(f.anyOomLate, Memory) && over == (bits != {} && f.hardOom)
      ensures View() == old(View()).(bits := bits, alarm := Enforce(old(View().alarm), f, bits != {}))
    {
      var pending := CurrentTermination(f.anyOom || f.anyOomLate);
      SelectedSpeaks(bits);
      if pending.Some? && !f.unwinding {
        if handlerGrace > 0 {
          handlerGrace := handlerGrace - 1;
        } else {
          raisePending := true;
        }
      }
      over := pending.Some? && f.hardOom;
    }

    /** Step the counters, and look at the clock when its countdown runs out. */
    method Pay(f: Fetch)
      modifies this`meter, this`gasRemaining, this`clockCountdown, this`bits
      ensures View() == Paid(old(View()), f)
    {
      ghost var seen := bits;
      if meter.Some? {
        meter := Some(Charged(meter.value));
        gasRemaining := meter.value.remaining;
      }
      if clockCountdown > 1 {
        clockCountdown := clockCountdown - 1;
      } else {
        clockCountdown := CLOCK_BATCH;
        if f.expired {
          NoteTerm(Deadline);
        }
        assert bits == seen + When(f.expired, Deadline);
      }
    }

    /** The delivery stage of fetchHook. */
    method DeliverArmed(f: Fetch) returns (raised: Option<Kind>)
      requires f.anyOom ==> Memory in bits
      modifies this`bits, this`raisePending, this`uncoveredWaits, this`handlerGrace, this`graceArmed
      ensures bits == old(bits)
      ensures View().alarm == Deliver(old(View().alarm), f, bits != {}).0
      ensures raised == if Deliver(old(View().alarm), f, bits != {}).1 then Selected(bits) else None
      ensures raised.Some? <==> Deliver(old(View().alarm), f, bits != {}).1
    {
      ghost var seen := bits;
      SelectedSpeaks(seen);
      raised := None;
      if raisePending && !f.unwinding && handlerGrace == 0 {
        if f.catchable || uncoveredWaits >= UNCOVERED_WAIT_LIMIT {
          raisePending := false;
          uncoveredWaits := 0;
          raised := CurrentTermination(f.anyOom);
          assert bits == seen;
          if raised.Some? {
            TerminationException(raised.value);
            assert bits == seen;
            return;
          }
          raisePending := false;
        } else {
          uncoveredWaits := uncoveredWaits + 1;
        }
      }
    }
  }

  lemma MemoryRecorded(w: Watch, f: Fetch)
    ensures f.anyOom ==> Memory in Recorded(w, f).bits
  {
  }

  // ---- what every fetch keeps ----------------------------------------------------------------

  /** A pending raise and unspent grace exclude each other, and waits only count while one is pending. */
  predicate Consistent(a: Alarm) {
    && (a.pending ==> a.grace == 0)
    && (!a.pending ==> a.waits == 0)
    && a.waits <= UNCOVERED_WAIT_LIMIT
    && a.grace <= (if a.armed then HANDLER_GRACE else 0)
  }

  /** Causes only accumulate, and what a fetch makes of the alarm depends on them alone. */
  lemma StepOnAlarm(w: Watch, f: Fetch)
    ensures var (alarm, raised) := Deliver(w.alarm, f, Causes(w, f) != {});
            && w.bits <= Causes(w, f) <= Step(w, f).0.bits
            && Step(w, f).1.Some? == raised
            && Step(w, f).0.alarm ==
               (if raised then alarm else Enforce(alarm, f, Causes(w, f) + Late(f) != {}))
  {
    SelectedSpeaks(Causes(w, f));
  }

  /** The meter's law survives every fetch. */
  lemma StepBalanced(w: Watch, f: Fetch)
    requires w.meter.Some? ==> Balanced(w.meter.value)
    ensures Step(w, f).0.meter.Some? == w.meter.Some?
    ensures w.meter.Some? ==>
              && Balanced(Step(w, f).0.meter.value)
              && Step(w, f).0.meter.value.limit == w.meter.value.limit
              && Step(w, f).0.meter.value.generation == w.meter.value.generation
  {
    if w.meter.Some? {
      ObservedThenCharged(w.meter.value);
    }
  }

  /** The clock is looked at once in every 1024 fetches that are paid for. */
  lemma ClockIsPolled(w: Watch, f: Fetch)
    requires 1 <= w.clockCountdown <= 1024
    ensures 1 <= Step(w, f).0.clockCountdown <= 1024
    ensures Step(w, f).1.None? && !f.hardOom ==>
              if w.clockCountdown > 1 then Step(w, f).0.clockCountdown == w.clockCountdown - 1
              else Step(w, f).0.clockCountdown == 1024 && (f.expired ==> Deadline in Step(w, f).0.bits)
  {
    SelectedSpeaks(Causes(w, f));
  }

  /** Nothing is ever raised without a recorded cause, and the raise names the cause that is selected. */
  lemma RaisesOnlyCauses(w: Watch, f: Fetch)
    requires Step(w, f).1.Some?
    ensures Step(w, f).1 == Selected(Causes(w, f)) && Step(w, f).1.value in Causes(w, f)
    ensures !f.unwinding && w.alarm.pending && w.alarm.grace == 0
    ensures f.catchable || w.alarm.waits >= UNCOVERED_WAIT_LIMIT
  {
    SelectedSpeaks(Causes(w, f));
  }

  // ---- bounded delivery ----------------------------------------------------------------------

  /** The fetches without a pending exception that can still pass before the next raise. */
  function Slack(a: Alarm): nat
    requires Consistent(a)
  {
    if a.pending then UNCOVERED_WAIT_LIMIT - a.waits else a.grace + UNCOVERED_WAIT_LIMIT + 1
  }

  /** Grace not yet granted. */
  function Reserve(a: Alarm): nat {
    if a.armed then 0 else HANDLER_GRACE
  }

  /**
   * Once a cause is recorded, every fetch without a pending exception either raises or uses up one
   * unit of slack; fetches during unwinding change nothing.
   */
  lemma EveryFetchCounts(w: Watch, f: Fetch)
    requires Consistent(w.alarm) && Causes(w, f) != {}
    ensures var a, (w', raised) := w.alarm, Step(w, f);
            && Consistent(w'.alarm) && w'.bits != {}
            && (f.unwinding ==> raised.None? && w'.alarm == a)
            && (!f.unwinding && raised.None? ==> Slack(w'.alarm) == Slack(a) - 1 && Reserve(w'.alarm) == Reserve(a))
            && (raised.Some? ==> Slack(w'.alarm) == Reserve(a) + UNCOVERED_WAIT_LIMIT + 1 && Reserve(w'.alarm) == 0)
  {
    hide Step, Causes;
    StepOnAlarm(w, f);
    var k :| k in Causes(w, f);
    assert k in Step(w, f).0.bits;
  }

  /** The state once every fetch of `fetches` has gone through the hook. */
  function After(w: Watch, fetches: seq<Fetch>): Watch
    decreases |fetches|
  {
    if fetches == [] then w else After(Step(w, fetches[0]).0, fetches[1..])
  }

  /** How many fetches found no exception pending and returned without raising. */
  function Quiet(w: Watch, fetches: seq<Fetch>): nat
    decreases |fetches|
  {
    if fetches == [] then 0
    else
      var (w', raised) := Step(w, fetches[0]);
      (if !fetches[0].unwinding && raised.None? then 1 else 0) + Quiet(w', fetches[1..])
  }

  function Raises(w: Watch, fetches: seq<Fetch>): nat
    decreases |fetches|
  {
    if fetches == [] then 0
    else
      var (w', raised) := Step(w, fetches[0]);
      (if raised.Some? then 1 else 0) + Raises(w', fetches[1..])
  }

  /** How many fetches found no exception pending. */
  function Plain(fetches: seq<Fetch>): nat {
    if fetches == [] then 0 else (if fetches[0].unwinding then 0 else 1) + Plain(fetches[1..])
  }

  /**
   * Bounded delivery, for every schedule of catchable and uncatchable positions: with a cause
   * recorded, the fetches that pass without raising are at most the slack, plus 4097 for each raise,
   * plus the grace that was still to be granted; before the first raise they are at most the slack.
   */
  lemma {:induction false} BoundedDelivery(w: Watch, fetches: seq<Fetch>)
    requires Consistent(w.alarm) && w.bits != {}
    decreases |fetches|
    ensures Quiet(w, fetches) <= Slack(w.alarm) + Reserve(w.alarm) + (UNCOVERED_WAIT_LIMIT + 1) * Raises(w, fetches)
    ensures Raises(w, fetches) == 0 ==> Quiet(w, fetches) <= Slack(w.alarm)
    ensures Quiet(w, fetches) + Raises(w, fetches) == Plain(fetches)
  {
    hide Step, Consistent, Slack, Reserve;
    if fetches != [] {
      EveryFetchCounts(w, fetches[0]);
      BoundedDelivery(Step(w, fetches[0]).0, fetches[1..]);
    }
  }

  /** The enforcement that first sees a cause leaves 4096 quiet fetches; the next one raises. */
  lemma FirstDelivery(w: Watch, f: Fetch, fetches: seq<Fetch>)
    requires Consistent(w.alarm) && !w.alarm.pending && w.alarm.grace == 0 && !f.unwinding
    requires Step(w, f).0.alarm.pending && Plain(fetches) >= UNCOVERED_WAIT_LIMIT + 1
    ensures Raises(Step(w, f).0, fetches) > 0
  {
    hide Step;
    ArmsOnlyWithCause(w, f);
    BoundedDelivery(Step(w, f).0, fetches);
  }

  lemma ArmsOnlyWithCause(w: Watch, f: Fetch)
    requires Consistent(w.alarm) && !w.alarm.pending && w.alarm.grace == 0 && Step(w, f).0.alarm.pending
    ensures Consistent(Step(w, f).0.alarm) && Step(w, f).0.bits != {}
            && Slack(Step(w, f).0.alarm) == UNCOVERED_WAIT_LIMIT
  {
    hide Step, Causes;
    StepOnAlarm(w, f);
    if Causes(w, f) == {} {
      LateRecorded(w, f);
    } else {
      var k :| k in Causes(w, f);
      assert k in Step(w, f).0.bits;
    }
  }

  lemma LateRecorded(w: Watch, f: Fetch)
    ensures When(f.terminatedLate, Script) <= Step(w, f).0.bits
    ensures Step(w, f).1.None? ==> Late(f) <= Step(w, f).0.bits
  {
    SelectedSpeaks(Causes(w, f));
  }

  /** After a raise, 4097 quiet fetches at most before the next one, and 1024 of grace the first time. */
  lemma NextDelivery(w: Watch, f: Fetch, fetches: seq<Fetch>)
    requires Consistent(w.alarm) && Step(w, f).1.Some?
    requires Plain(fetches) >= UNCOVERED_WAIT_LIMIT + 2 + Reserve(w.alarm)
    ensures Raises(Step(w, f).0, fetches) > 0
  {
    hide Step;
    RaisesOnlyCauses(w, f);
    EveryFetchCounts(w, f);
    BoundedDelivery(Step(w, f).0, fetches);
  }

  predicate NeverCovered(fetches: seq<Fetch>) {
    forall k :: 0 <= k < |fetches| ==> !fetches[k].unwinding && !fetches[k].catchable
  }

  /** The bound is met: code that is never covered is left alone for exactly the slack. */
  lemma {:induction false} WorstCase(w: Watch, fetches: seq<Fetch>)
    requires Consistent(w.alarm) && w.bits != {} && w.alarm.pending && NeverCovered(fetches)
    requires |fetches| == Slack(w.alarm) + 1
    ensures Quiet(w, fetches) == Slack(w.alarm) && Raises(w, fetches) == 1
    decreases |fetches|
  {
    EveryFetchCounts(w, fetches[0]);
    if Slack(w.alarm) > 0 {
      WorstCase(Step(w, fetches[0]).0, fetches[1..]);
    }
  }

  // ---- what a run of fetches leaves on record ------------------------------------------------

  /** The causes fetch `f` brings along, whatever the hook was doing. */
  function Brought(f: Fetch, depthLimit: Option<nat>): set<Kind> {
    When(f.terminated || f.terminatedLate, Script) + When(f.anyOom, Memory)
    + When(TooDeep(depthLimit, f.depth), CallDepth)
  }

  lemma StepRecords(w: Watch, f: Fetch)
    ensures w.bits + Brought(f, w.depthLimit) <= Step(w, f).0.bits && Step(w, f).0.depthLimit == w.depthLimit
  {
    StepOnAlarm(w, f);
    LateRecorded(w, f);
  }

  /** No cause is missed: each one brought by any fetch is on record at the end. */
  lemma {:induction false} EveryCauseRecorded(w: Watch, fetches: seq<Fetch>, k: nat)
    requires k < |fetches|
    ensures w.bits + Brought(fetches[k], w.depthLimit) <= After(w, fetches).bits
    decreases |fetches|
  {
    hide Step, Brought;
    StepRecords(w, fetches[0]);
    if k > 0 {
      EveryCauseRecorded(Step(w, fetches[0]).0, fetches[1..], k - 1);
    } else if |fetches| > 1 {
      EveryCauseRecorded(Step(w, fetches[0]).0, fetches[1..], 0);
    }
  }

  /** A memory breach published in the middle of a fetch is on record too, unless that fetch raised. */
  lemma {:induction false} LateMemoryRecorded(w: Watch, fetches: seq<Fetch>, k: nat)
    requires k < |fetches| && fetches[k].anyOomLate && Step(After(w, fetches[..k]), fetches[k]).1.None?
    ensures Memory in After(w, fetches).bits
    decreases |fetches|
  {
    hide Step;
    var w1 := Step(w, fetches[0]).0;
    if k > 0 {
      assert fetches[..k][1..] == fetches[1..][..k - 1];
      LateMemoryRecorded(w1, fetches[1..], k - 1);
    } else {
      LateRecorded(w, fetches[0]);
      if |fetches| > 1 {
        EveryCauseRecorded(w1, fetches[1..], 0);
      }
    }
  }

  // ---- gas through the hook ------------------------------------------------------------------

  /** A fetch at which nothing but gas can become a cause. */
  predicate Undisturbed(f: Fetch, depthLimit: Option<nat>) {
    !f.hardOom && !f.anyOomLate && !f.expired && Brought(f, depthLimit) == {}
  }

  predicate AllUndisturbed(fetches: seq<Fetch>, depthLimit: Option<nat>) {
    forall k :: 0 <= k < |fetches| ==> Undisturbed(fetches[k], depthLimit)
  }

  /** An active meter, with gas the only cause there is, recorded exactly when it was found empty. */
  predicate Metered(w: Watch) {
    w.meter.Some? && w.meter.value.active && Balanced(w.meter.value)
    && w.bits <= {GasOut} && (w.bits != {} ==> w.meter.value.remaining == 0)
  }

  function Least(a: nat, b: nat): nat {
    if a <= b then a else b
  }

  /** One undisturbed fetch charges one unit if there is one, and records exhaustion if there is none. */
  lemma MeteredFetch(w: Watch, f: Fetch)
    requires Metered(w) && Undisturbed(f, w.depthLimit)
    ensures var w' := Step(w, f).0;
            && Metered(w') && w'.depthLimit == w.depthLimit
            && w'.meter.value.limit == w.meter.value.limit && w'.meter.value.scope == w.meter.value.scope
            && w'.meter.value.generation == w.meter.value.generation
            && w'.bits == (if w.meter.value.remaining == 0 then {GasOut} else {})
            && w'.meter.value.used == w.meter.value.used + (if w.meter.value.remaining == 0 then 0 else 1)
  {
    assert Causes(w, f) == w.bits + When(Empty(w.meter.value), GasOut);
    StepBalanced(w, f);
  }

  /**
   * The gas law: with nothing else pending, `n` fetches charge `n` units or all there were, and
   * exhaustion is on record exactly when there was one fetch more than the allowance.
   */
  lemma {:induction false} GasLaw(w: Watch, fetches: seq<Fetch>)
    requires Metered(w) && AllUndisturbed(fetches, w.depthLimit)
    ensures var w', m := After(w, fetches), w.meter.value;
            && Metered(w') && w'.depthLimit == w.depthLimit
            && w'.meter.value.limit == m.limit && w'.meter.value.scope == m.scope
            && w'.meter.value.generation == m.generation
            && w'.meter.value.used == m.used + Least(|fetches|, m.remaining)
            && w'.bits == (if |fetches| > m.remaining then {GasOut} else w.bits)
    decreases |fetches|
  {
    hide Step, Undisturbed, Balanced;
    if fetches != [] {
      MeteredFetch(w, fetches[0]);
      var w1 := Step(w, fetches[0]).0;
      forall k | 0 <= k < |fetches| - 1 ensures Undisturbed(fetches[1..][k], w1.depthLimit) {
        assert fetches[1..][k] == fetches[k + 1];
      }
      GasLaw(w1, fetches[1..]);
      MeterSum(w);
      MeterSum(w1);
    }
  }

  lemma MeterSum(w: Watch)
    requires Metered(w)
    ensures w.meter.value.used + w.meter.value.remaining == w.meter.value.limit
  {
  }

  /** In a fresh allowance of `limit` units, fetch `limit` is the last charged and the next one shows exhaustion. */
  lemma GasShowsOnNext(w: Watch, fetches: seq<Fetch>)
    requires Metered(w) && w.bits == {} && AllUndisturbed(fetches, w.depthLimit)
    ensures After(w, fetches).bits == {} <==> |fetches| <= w.meter.value.remaining
    ensures Raises(w, fetches) > 0 ==> |fetches| > w.meter.value.remaining
  {
    GasLaw(w, fetches);
    if |fetches| <= w.meter.value.remaining {
      NoRaiseWithoutCause(w, fetches);
    }
  }

  lemma {:induction false} NoRaiseWithoutCause(w: Watch, fetches: seq<Fetch>)
    requires After(w, fetches).bits == {}
    ensures Raises(w, fetches) == 0
    decreases |fetches|
  {
    hide Step;
    if fetches != [] {
      var w1 := Step(w, fetches[0]).0;
      NoRaiseWithoutCause(w1, fetches[1..]);
      if fetches[1..] != [] {
        EveryCauseRecorded(w1, fetches[1..], 0);
      }
      if Step(w, fetches[0]).1.Some? {
        RaisesOnlyCauses(w, fetches[0]);
        StepOnAlarm(w, fetches[0]);
      }
    }
  }
}
