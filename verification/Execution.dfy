/**
 * Outer executions (sandbox.zig:988-1109 and 1187-1201): preflight, capability setup, gas renewal,
 * the guest body and the final verdict, with `terminate`, the clock and the memory caps free to
 * record a cause before any read of the cause bits.
 */
module Execution {
  import opened BigEndian
  import opened Gas
  import opened Hook
  import opened Lifecycle
  import opened Results

  datatype Capabilities = Pending | Applied | Failed

  datatype Outcome = Completed | RubyException | OtherError | Policy(kind: Kind) | CapabilityApplicationFailed

  /** Guest work: the fetches it makes and how the call into the interpreter returns. */
  datatype Work = Work(fetches: seq<Fetch>, result: Outcome)

  predicate WorkFits(w: Work) {
    !w.result.Policy? && !w.result.CapabilityApplicationFailed?
  }

  /** The causes that are never forgiven. */
  function Sticky(bits: set<Kind>): set<Kind> {
    bits - {GasOut}
  }

  /** The verdict at a return boundary: any recorded cause outranks the body's own result. */
  function Verdict(bits: set<Kind>, result: Outcome): Outcome {
    match Selected(bits)
    case Some(kind) => Policy(kind)
    case None => result
  }

  /** What the reads of the cause bits from number `from` up to `to` found that no fetch had recorded. */
  function Arrived(arrivals: nat -> set<Kind>, from: nat, to: nat): set<Kind> {
    if to <= from then {} else Arrived(arrivals, from, to - 1) + Sticky(arrivals(to - 1))
  }

  // ---- one execution, as a relation between states -------------------------------------------

  datatype Machine = Machine(watch: Watch, loads: nat, capabilities: Capabilities, lastGas: Option<Meter>)

  /**
   * One outer execution: the states around it, its outcome, whether the guest body was entered,
   * whether a fresh gas generation was installed, the number of the first read after the body was
   * entered, the hook's state on entry, and what the final check saw.
   */
  datatype Record = Record(
    before: Machine, after: Machine, outcome: Outcome, ran: bool, committed: bool, bodyLoads: nat, atBody: Watch,
    verdict: set<Kind>)

  /** `.per_execution` gas. */
  predicate Renewing(w: Watch) {
    w.meter.Some? && w.meter.value.scope.ExecutionScope?
  }

  /** Whether this execution ran the capability setup. */
  predicate SetupRan(before: Capabilities, after: Capabilities) {
    before == Pending && after != Pending
  }

  function Prepared(w: Watch, before: Capabilities, after: Capabilities, setup: Work): Watch {
    if SetupRan(before, after) then After(w, setup.fetches) else w
  }

  /** The hook's state when the body is entered: nothing recorded, and a fresh generation if gas renews. */
  function Opened(w: Watch): Watch {
    if Renewing(w)
    then var next := NextGeneration(w.meter.value);
         w.(bits := {}, alarm := CALM, meter := Some(next), gasRemaining := next.remaining)
    else w.(bits := {})
  }

  /** The hook's state once the execution is finished. */
  function Closed(w: Watch): Watch {
    if Renewing(w) then w.(bits := Sticky(w.bits), alarm := CALM, meter := Some(Finished(w.meter.value))) else w
  }

  /** No cause that would refuse the execution: none at all, or only gas about to be forgiven. */
  predicate Clear(w: Watch, bits: set<Kind>) {
    Sticky(bits) == {} && (bits == {} || Renewing(w))
  }

  /** The reads before the body: three checks, one more after the setup, and one more when gas renews. */
  function PreflightLoads(b: Machine, after: Capabilities): nat {
    3 + (if SetupRan(b.capabilities, after) then 1 else 0) + (if Renewing(b.watch) then 1 else 0)
  }

  predicate BodyEntered(x: Record, setup: Work, arrivals: nat -> set<Kind>) {
    var p := Prepared(x.before.watch, x.before.capabilities, x.after.capabilities, setup);
    && x.after.capabilities == Applied && (x.before.capabilities == Pending ==> setup.result == Completed)
    && x.bodyLoads == x.before.loads + PreflightLoads(x.before, x.after.capabilities)
    && Clear(x.before.watch, x.before.watch.bits) && Clear(x.before.watch, p.bits)
    && Arrived(arrivals, x.before.loads, x.bodyLoads) == {}
    && x.committed == Renewing(x.before.watch) && x.atBody == Opened(p)
  }

  /** The final check looks once, and once more after capturing an exception with nothing on record. */
  function FinalLoads(bits: set<Kind>, result: Outcome): nat {
    if result == RubyException && bits == {} then 2 else 1
  }

  predicate BodyLeft(x: Record, body: Work, arrivals: nat -> set<Kind>) {
    var guest := After(x.atBody, body.fetches);
    && x.after.loads == x.bodyLoads + FinalLoads(guest.bits + Sticky(arrivals(x.bodyLoads)), body.result)
    && x.verdict == guest.bits + Arrived(arrivals, x.bodyLoads, x.after.loads)
    && x.outcome == Verdict(x.verdict, body.result)
    && x.after.watch == Closed(guest.(bits := x.verdict)) && x.after.lastGas == guest.meter
  }

  /** Refused before the body, at the first read that found a cause or because capabilities cannot be had. */
  predicate Refused(x: Record, setup: Work, arrivals: nat -> set<Kind>) {
    var b, a := x.before, x.after;
    var p := Prepared(b.watch, b.capabilities, a.capabilities, setup);
    var found := p.bits + Arrived(arrivals, b.loads, a.loads);
    && (a.loads > b.loads + 1 ==> Clear(b.watch, b.watch.bits) && Arrived(arrivals, b.loads, a.loads - 1) == {})
    && a.loads <= b.loads + PreflightLoads(b, a.capabilities)
    && (SetupRan(b.capabilities, a.capabilities) ==> a.loads > b.loads + 1)
    && (if x.committed
        then && Renewing(b.watch) && a.loads == b.loads + PreflightLoads(b, a.capabilities)
             && a.watch == Closed(Opened(p)).(bits := found) && a.lastGas == Opened(p).meter
        else a.watch == p.(bits := found))
    && (if x.outcome == CapabilityApplicationFailed
        then && found == {} && a.capabilities == Failed
             && (b.capabilities == Failed || (b.capabilities == Pending && setup.result != Completed))
        else x.outcome.Policy? && Selected(found) == Some(x.outcome.kind))
  }

  /** What enterOuterExecution does to the isolate. */
  predicate Executed(x: Record, setup: Work, body: Work, arrivals: nat -> set<Kind>) {
    && x.before.loads < x.after.loads
    && (x.before.capabilities != Pending ==> x.after.capabilities == x.before.capabilities)
    && (if x.ran then BodyEntered(x, setup, arrivals) && BodyLeft(x, body, arrivals) else Refused(x, setup, arrivals))
  }

  // ---- enterOuterExecution -------------------------------------------------------------------

  class Runner {
    const iso: Isolate
    /** The causes on record by the k-th read that no fetch of this thread recorded. */
    const arrivals: nat -> set<Kind>
    var loads: nat
    var phase: Phase
    var capabilities: Capabilities
    var lastGas: Option<Meter>

    constructor (policy: Gas.Policy, depthLimit: Option<nat>, arrivals: nat -> set<Kind>)
      requires policy.Unlimited? || policy.limit < U64
      ensures Valid() && phase == Idle && capabilities == Pending && iso.bits == {} && fresh(iso)
      ensures iso.meter == Init(policy) && this.arrivals == arrivals
    {
      iso := new Isolate(policy, depthLimit);
      this.arrivals := arrivals;
      loads, phase, capabilities := 0, Idle, Pending;
      lastGas := Init(policy);
    }

    function Now(): Machine
      reads this, iso
    {
      Machine(iso.View(), loads, capabilities, lastGas)
    }

    ghost predicate Valid()
      reads this, iso
    {
      Sound(iso.View(), phase == Running)
    }

    /** An acquire load of the cause bits, after whatever other threads, the clock and the caps did. */
    method Load() returns (bits: set<Kind>)
      modifies this`loads, iso`bits
      ensures iso.bits == old(iso.bits) + Sticky(arrivals(old(loads))) && bits == iso.bits && loads == old(loads) + 1
    {
      iso.bits := iso.bits + Sticky(arrivals(loads));
      loads := loads + 1;
      bits := iso.bits;
    }

    /** rejectPending. */
    method RejectPending(ignoreGas: bool) returns (kind: Option<Kind>)
      requires Valid()
      modifies this`loads, iso`bits
      ensures Valid() && loads == old(loads) + 1
      ensures iso.bits == old(iso.bits) + Sticky(arrivals(old(loads)))
      ensures kind == Selected(if ignoreGas then Sticky(iso.bits) else iso.bits)
      ensures kind.None? <==> (if ignoreGas then Sticky(iso.bits) else iso.bits) == {}
    {
      var bits := Load();
      if ignoreGas {
        bits := bits - {GasOut};
      }
      SelectedSpeaks(bits);
      kind := Selected(bits);
    }

    /** Guest code runs: one hook call per fetch. */
    method RunFetches(fetches: seq<Fetch>)
      requires Valid()
      modifies iso
      ensures Valid() && iso.View() == After(old(iso.View()), fetches)
      ensures old(iso.bits) <= iso.bits && Renewing(iso.View()) == old(Renewing(iso.View()))
    {
      hide Step;
      for i := 0 to |fetches|
        invariant Valid() && After(iso.View(), fetches[i..]) == After(old(iso.View()), fetches)
        invariant old(iso.bits) <= iso.bits && Renewing(iso.View()) == old(Renewing(iso.View()))
      {
        FetchKeeps(iso.View(), fetches[i], phase == Running);
        assert fetches[i..][1..] == fetches[i + 1..];
        var _ := iso.FetchHook(fetches[i]);
      }
    }

    /** prepareCapabilities: at most once, under the hook like any guest code, and a failure is final. */
    method PrepareCapabilities(setup: Work) returns (failure: Option<Outcome>)
      requires Valid() && phase == Idle && WorkFits(setup)
      modifies this`loads, this`phase, this`capabilities, iso
      ensures Valid() && phase == Idle && (failure.None? <==> capabilities == Applied)
      ensures Renewing(iso.View()) == old(Renewing(iso.View())) && old(iso.bits) <= iso.bits
      ensures old(capabilities) == Applied ==> unchanged(this, iso) && failure.None?
      ensures old(capabilities) == Failed ==> unchanged(this, iso) && failure == Some(CapabilityApplicationFailed)
      ensures old(capabilities) == Pending ==>
                && capabilities != Pending && loads == old(loads) + 1
                && iso.View() == After(old(iso.View()), setup.fetches).(bits := iso.bits)
                && iso.bits == After(old(iso.View()), setup.fetches).bits + Sticky(arrivals(old(loads)))
                && failure == (if Selected(iso.bits).Some? then Some(Policy(Selected(iso.bits).value))
                               else if setup.result != Completed then Some(CapabilityApplicationFailed) else None)
    {
      if capabilities == Applied {
        return None;
      }
      if capabilities == Failed {
        return Some(CapabilityApplicationFailed);
      }
      phase := Preparing;
      RunFetches(setup.fetches);
      var bits := Load();
      phase := Idle;
      SelectedSpeaks(bits);
      var pending := Selected(bits);
      if setup.result != Completed || pending.Some? {
        capabilities := Failed;
        return Some(if pending.Some? then Policy(pending.value) else CapabilityApplicationFailed);
      }
      capabilities := Applied;
      failure := None;
    }

    /** clearGasDelivery. */
    method ClearGasDelivery()
      modifies iso`handlerGrace, iso`graceArmed, iso`raisePending, iso`uncoveredWaits
      ensures iso.View() == old(iso.View()).(alarm := CALM)
    {
      iso.handlerGrace := 0;
      iso.graceArmed := false;
      iso.raisePending := false;
      iso.uncoveredWaits := 0;
    }

    /** renewExecutionGas: nothing is installed when a cause arrives in time to refuse it. */
    method RenewExecutionGas() returns (failure: Option<Kind>)
      requires Valid() && phase == Idle && Renewing(iso.View())
      modifies this`loads, this`phase, iso
      ensures Valid() && loads == old(loads) + 1
      ensures iso.bits == Sticky(old(iso.bits) + arrivals(old(loads))) && failure == Selected(iso.bits)
      ensures failure.None? <==> iso.bits == {}
      ensures failure.Some? ==> phase == Idle && iso.View() == old(iso.View()).(bits := iso.bits)
      ensures failure.None? ==> phase == Running && iso.View() == Opened(old(iso.View()))
    {
      var candidate := NextGeneration(iso.meter.value);
      iso.bits := iso.bits - {GasOut};
      failure := RejectPending(true);
      assert Sticky(iso.bits) == iso.bits;
      if failure.Some? {
        return;
      }
      iso.meter := Some(candidate);
      iso.gasRemaining := candidate.remaining;
      ClearGasDelivery();
      phase := Running;
    }

    /** finishExecution. */
    method FinishExecution()
      requires Valid() && phase == Running
      modifies this`phase, this`lastGas, iso
      ensures Valid() && phase == Idle
      ensures iso.View() == Closed(old(iso.View())) && lastGas == old(iso.meter)
    {
      lastGas := iso.meter;
      if iso.meter.Some? && iso.meter.value.scope == ExecutionScope {
        iso.meter := Some(Finished(iso.meter.value));
        iso.bits := iso.bits - {GasOut};
        ClearGasDelivery();
      }
      phase := Idle;
    }

    /** The last look at the cause bits before the caller gets its answer. */
    method Arbitrate(result: Outcome) returns (outcome: Outcome)
      requires Valid()
      modifies this`loads, iso`bits
      ensures Valid() && loads == old(loads) + FinalLoads(old(iso.bits) + Sticky(arrivals(old(loads))), result)
      ensures iso.bits == old(iso.bits) + Arrived(arrivals, old(loads), loads)
      ensures outcome == Verdict(iso.bits, result)
    {
      ghost var from := loads;
      ArrivedStep(arrivals, from, from);
      var bits := Load();
      if result == RubyException && bits == {} {
        // mapError captures the exception and then looks once more.
        ArrivedStep(arrivals, from, from + 1);
        bits := Load();
      }
      outcome := Verdict(bits, result);
    }

    /** The first check and the capability setup. */
    method CheckAndPrepare(setup: Work) returns (refused: Option<Outcome>)
      requires Valid() && phase == Idle && WorkFits(setup)
      modifies this`loads, this`phase, this`capabilities, iso
      ensures Valid() && phase == Idle && lastGas == old(lastGas)
      ensures old(capabilities) != Pending ==> capabilities == old(capabilities)
      ensures refused.Some? ==> RefusedSoFar(old(Now()), Now(), refused.value, setup, arrivals)
      ensures refused.None? ==> Clean(old(Now()), Now(), 1, setup, arrivals)
    {
      hide Consistent, Balanced, After, Arrived, Selected;
      ghost var b := Now();
      var renewable := iso.meter.Some? && iso.meter.value.scope == ExecutionScope;
      ArrivedStep(arrivals, loads, loads);
      var kind := RejectPending(renewable);
      assert renewable ==> Sticky(iso.bits) == iso.bits;
      if kind.Some? {
        RefusedAtOnce(b, Now(), kind.value, setup, arrivals);
        return Some(Policy(kind.value));
      }
      ArrivedStep(arrivals, b.loads, loads);
      assert iso.bits == {} && iso.View() == b.watch;
      refused := PrepareCapabilities(setup);
      if refused.Some? {
        RefusedBySetup(b, Now(), refused.value, setup, arrivals);
      } else {
        SelectedSpeaks(iso.bits);
        PassedSetup(b, Now(), setup, arrivals);
      }
    }

    /** One more check, `n` checks having been clean. */
    method CheckAgain(ghost b: Machine, ghost n: nat, ignoreGas: bool, ghost setup: Work)
      returns (refused: Option<Outcome>)
      requires Valid() && Clean(b, Now(), n, setup, arrivals) && (ignoreGas ==> Renewing(iso.View())) && 0 < n < 3
      modifies this`loads, iso`bits
      ensures Valid() && iso.View() == old(iso.View()).(bits := iso.bits)
      ensures refused.None? ==> Clean(b, Now(), n + 1, setup, arrivals)
      ensures refused.Some? ==> RefusedSoFar(b, Now(), refused.value, setup, arrivals)
    {
      hide Consistent, Balanced, After, Arrived, Selected;
      ghost var m := Now();
      ArrivedStep(arrivals, b.loads, loads);
      var kind := RejectPending(ignoreGas);
      assert Sticky(iso.bits) == iso.bits;
      refused := if kind.Some? then Some(Policy(kind.value)) else None;
      if refused.Some? {
        RefusedLater(b, m, Now(), n, refused.value.kind, setup, arrivals);
      }
    }

    /** Everything enterOuterExecution does before it marks the phase running. */
    method Preflight(setup: Work) returns (refused: Option<Outcome>)
      requires Valid() && phase == Idle && WorkFits(setup)
      modifies this`loads, this`phase, this`capabilities, iso
      ensures Valid() && (old(capabilities) != Pending ==> capabilities == old(capabilities))
      ensures refused.Some? ==> phase == Idle && RefusedSoFar(old(Now()), Now(), refused.value, setup, arrivals)
      ensures refused.None? ==> phase == Running && Opens(old(Now()), Now(), setup, arrivals)
    {
      hide Consistent, Balanced, After, Arrived, Selected, RefusedSoFar;
      ghost var b := Now();
      var renewable := iso.meter.Some? && iso.meter.value.scope == ExecutionScope;
      refused := CheckAndPrepare(setup);
      if refused.Some? {
        return;
      }
      refused := CheckAgain(b, 1, renewable, setup);
      if refused.Some? {
        return;
      }
      ghost var m := Now();
      if renewable {
        ArrivedStep(arrivals, b.loads, loads);
        var kind := RenewExecutionGas();
        if kind.Some? {
          assert iso.bits == Sticky(arrivals(m.loads));
          RefusedLater(b, m, Now(), 2, kind.value, setup, arrivals);
          return Some(Policy(kind.value));
        }
      } else {
        phase := Running;
      }
    }

    /** enterOuterExecution. The ghost record says what happened, exactly. */
    method EnterOuterExecution(setup: Work, body: Work) returns (outcome: Outcome, ghost x: Record)
      requires Valid() && phase == Idle && WorkFits(setup) && WorkFits(body)
      modifies this, iso
      ensures Valid() && phase == Idle
      ensures x.before == old(Now()) && x.after == Now() && x.outcome == outcome && Executed(x, setup, body, arrivals)
      // A cause other than gas is never cleared, and every one read is on record.
      ensures Sticky(old(iso.bits)) + Arrived(arrivals, old(loads), loads) <= iso.bits
      // On record before, it rejects the execution before its body; on record after, it decides the outcome.
      ensures Sticky(old(iso.bits)) != {} ==> !x.ran && !x.committed
      ensures Sticky(iso.bits) != {} ==> outcome.Policy?
      // What the guest's own fetches recorded reaches the final check, and what they charged stays charged.
      ensures x.ran ==> After(x.atBody, body.fetches).bits <= x.verdict && Sticky(x.verdict) == Sticky(iso.bits)
      ensures x.ran && iso.meter.Some? ==> iso.meter == Some(Finished(After(x.atBody, body.fetches).meter.value))
    {
      hide Consistent, Balanced, After, Arrived, Selected, Refused, Sound, BodyEntered, Opens;
      ghost var b := Now();
      var refused := Preflight(setup);
      if refused.Some? {
        x := Record(b, Now(), refused.value, false, false, 0, iso.View(), {});
        CausesDecide(x, setup, body, arrivals);
        return refused.value, x;
      }
      ghost var m := Now();
      OpensClean(b, m, setup, arrivals);
      var kind := RejectPending(false);
      assert iso.bits == Sticky(arrivals(m.loads));
      if kind.Some? {
        FinishExecution();
        x := Record(b, Now(), Policy(kind.value), false, Renewing(b.watch), 0, m.watch, {});
        RefusedAtBody(b, m, x, kind.value, setup, arrivals);
        CausesDecide(x, setup, body, arrivals);
        return Policy(kind.value), x;
      }
      ghost var entry := loads;
      assert iso.View() == m.watch;
      RunFetches(body.fetches);
      outcome := Arbitrate(body.result);
      ghost var verdict := iso.bits;
      FinishExecution();
      x := Record(b, Now(), outcome, true, Renewing(b.watch), entry, m.watch, verdict);
      BodyWasEntered(b, m, x, setup, arrivals);
      CausesDecide(x, setup, body, arrivals);
    }

    /** Any sequence of executions, each starting where the one before left off. */
    method RunAll(setup: Work, bodies: seq<Work>) returns (outcomes: seq<Outcome>, ghost xs: seq<Record>)
      requires Valid() && phase == Idle && WorkFits(setup) && forall i :: 0 <= i < |bodies| ==> WorkFits(bodies[i])
      modifies this, iso
      ensures Valid() && phase == Idle && |outcomes| == |bodies|
      ensures History(xs, setup, bodies, arrivals) && Last(xs, old(Now())) == Now()
      ensures bodies != [] ==> xs[0].before == old(Now())
      ensures forall i :: 0 <= i < |bodies| ==> outcomes[i] == xs[i].outcome
    {
      hide Executed, Sound;
      outcomes, xs := [], [];
      for i := 0 to |bodies|
        invariant Valid() && phase == Idle && |outcomes| == i
        invariant History(xs, setup, bodies[..i], arrivals) && Last(xs, old(Now())) == Now()
        invariant i > 0 ==> xs[0].before == old(Now())
        invariant forall k :: 0 <= k < i ==> outcomes[k] == xs[k].outcome
      {
        var outcome;
        ghost var x;
        outcome, x := EnterOuterExecution(setup, bodies[i]);
        outcomes := outcomes + [outcome];
        HistoryGrows(xs, x, setup, bodies[..i], bodies[i], arrivals);
        assert bodies[..i + 1] == bodies[..i] + [bodies[i]];
        xs := xs + [x];
      }
      assert bodies[..|bodies|] == bodies;
    }
  }

  // ---- sequences of executions ---------------------------------------------------------------

  predicate Linked(xs: seq<Record>, i: nat)
    requires 0 < i < |xs|
  {
    xs[i].before == xs[i - 1].after
  }

  predicate History(xs: seq<Record>, setup: Work, bodies: seq<Work>, arrivals: nat -> set<Kind>) {
    && |xs| == |bodies|
    && (forall i :: 0 <= i < |xs| ==> Executed(xs[i], setup, bodies[i], arrivals))
    && forall i :: 0 < i < |xs| ==> Linked(xs, i)
  }

  function Last(xs: seq<Record>, start: Machine): Machine {
    if xs == [] then start else xs[|xs| - 1].after
  }

  lemma HistoryGrows(xs: seq<Record>, x: Record, setup: Work, bodies: seq<Work>, body: Work, arrivals: nat -> set<Kind>)
    requires History(xs, setup, bodies, arrivals) && Executed(x, setup, body, arrivals)
    requires xs != [] ==> x.before == xs[|xs| - 1].after
    ensures History(xs + [x], setup, bodies + [body], arrivals)
  {
    hide Executed;
    var longer := xs + [x];
    forall i | 0 < i < |longer| ensures Linked(longer, i) {
      assert i < |xs| ==> Linked(xs, i);
    }
  }

  // ---- what one execution means --------------------------------------------------------------

  lemma {:induction false} ArrivedGrows(arrivals: nat -> set<Kind>, from: nat, to: nat, later: nat)
    requires to <= later
    ensures Arrived(arrivals, from, to) <= Arrived(arrivals, from, later)
    decreases later
  {
    if to < later {
      ArrivedGrows(arrivals, from, to, later - 1);
    }
  }

  lemma {:induction false} ArrivedSplits(arrivals: nat -> set<Kind>, from: nat, mid: nat, until: nat)
    requires from <= mid <= until
    ensures Arrived(arrivals, from, until) == Arrived(arrivals, from, mid) + Arrived(arrivals, mid, until)
    ensures GasOut !in Arrived(arrivals, from, until)
    decreases until
  {
    if mid < until {
      ArrivedSplits(arrivals, from, mid, until - 1);
    } else if from < until {
      ArrivedSplits(arrivals, from, until - 1, until - 1);
    }
  }

  lemma {:induction false} AfterKeeps(w: Watch, fetches: seq<Fetch>, running: bool)
    requires Sound(w, running)
    ensures var w' := After(w, fetches);
            && Sound(w', running) && w.bits <= w'.bits && Renewing(w') == Renewing(w) && w'.meter.Some? == w.meter.Some?
    decreases |fetches|
  {
    hide Step, Sound;
    if fetches != [] {
      FetchKeeps(w, fetches[0], running);
      AfterKeeps(Step(w, fetches[0]).0, fetches[1..], running);
    }
  }

  lemma OpenedSound(w: Watch)
    requires Sound(w, false)
    ensures Sound(Opened(w), true) && Renewing(Opened(w)) == Renewing(w) && Opened(w).meter.Some? == w.meter.Some?
  {
  }

  lemma ClosedSound(w: Watch)
    requires Sound(w, true)
    ensures Sound(Closed(w), false) && Renewing(Closed(w)) == Renewing(w) && Sticky(w.bits) <= Closed(w).bits <= w.bits
    ensures Closed(w).meter == if w.meter.Some? then Some(Finished(w.meter.value)) else None
  {
  }

  /** The setup leaves a sound state, and takes no cause away. */
  lemma PreparedSound(w: Watch, before: Capabilities, after: Capabilities, setup: Work)
    requires Sound(w, false)
    ensures var p := Prepared(w, before, after, setup);
            Sound(p, false) && w.bits <= p.bits && Renewing(p) == Renewing(w) && p.meter.Some? == w.meter.Some?
  {
    AfterKeeps(w, setup.fetches, false);
  }

  lemma RanDecides(x: Record, setup: Work, body: Work, arrivals: nat -> set<Kind>)
    requires BodyEntered(x, setup, arrivals) && BodyLeft(x, body, arrivals) && x.before.loads < x.after.loads
    requires Sound(x.atBody, true) && Renewing(x.atBody) == Renewing(x.before.watch)
    requires x.atBody.meter.Some? == x.before.watch.meter.Some?
    ensures Sticky(x.before.watch.bits) + Arrived(arrivals, x.before.loads, x.after.loads) <= x.after.watch.bits
    ensures Sticky(x.before.watch.bits) == {}
    ensures Sticky(x.after.watch.bits) != {} ==> x.outcome.Policy?
    ensures After(x.atBody, body.fetches).bits <= x.verdict && Sticky(x.verdict) == Sticky(x.after.watch.bits)
    ensures x.after.watch.meter.Some? == x.before.watch.meter.Some?
    ensures x.after.watch.meter.Some? ==>
              && After(x.atBody, body.fetches).meter.Some?
              && x.after.watch.meter == Some(Finished(After(x.atBody, body.fetches).meter.value))
    ensures Sound(x.after.watch, false) && Renewing(x.after.watch) == Renewing(x.before.watch)
  {
    hide After, Arrived, Selected, Balanced, Consistent;
    AfterKeeps(x.atBody, body.fetches, true);
    var guest := After(x.atBody, body.fetches);
    ClosedSound(guest.(bits := x.verdict));
    ArrivedSplits(arrivals, x.before.loads, x.bodyLoads, x.after.loads);
    ArrivedSplits(arrivals, x.bodyLoads, x.bodyLoads, x.after.loads);
    SelectedSpeaks(x.verdict);
  }

  lemma RefusedDecides(x: Record, setup: Work, arrivals: nat -> set<Kind>)
    requires Refused(x, setup, arrivals) && x.before.loads < x.after.loads && Sound(x.before.watch, false)
    requires var p := Prepared(x.before.watch, x.before.capabilities, x.after.capabilities, setup);
             && Sound(p, false) && x.before.watch.bits <= p.bits && Renewing(p) == Renewing(x.before.watch)
             && Sound(Opened(p), true)
    ensures Sticky(x.before.watch.bits) + Arrived(arrivals, x.before.loads, x.after.loads) <= x.after.watch.bits
    ensures Sticky(x.before.watch.bits) != {} ==> !x.committed
    ensures Sticky(x.after.watch.bits) != {} ==> x.outcome.Policy?
    ensures Sound(x.after.watch, false) && Renewing(x.after.watch) == Renewing(x.before.watch)
  {
    hide After, Arrived, Selected, Balanced, Consistent;
    var p := Prepared(x.before.watch, x.before.capabilities, x.after.capabilities, setup);
    ArrivedSplits(arrivals, x.before.loads, x.before.loads, x.after.loads);
    if x.committed {
      ClosedSound(Opened(p));
    }
  }

  /**
   * No lost termination, in one execution: nothing but gas is ever cleared, whatever any read or any
   * fetch of a body that ran found is on record afterwards, and a recorded cause decides the outcome;
   * one found before the body keeps the body from being entered.
   */
  lemma CausesDecide(x: Record, setup: Work, body: Work, arrivals: nat -> set<Kind>)
    requires Executed(x, setup, body, arrivals) && Sound(x.before.watch, false)
    ensures Sticky(x.before.watch.bits) + Arrived(arrivals, x.before.loads, x.after.loads) <= x.after.watch.bits
    ensures Sticky(x.before.watch.bits) != {} ==> !x.ran && !x.committed
    ensures Sticky(x.after.watch.bits) != {} ==> x.outcome.Policy?
    ensures x.ran ==>
              && Arrived(arrivals, x.before.loads, x.bodyLoads) == {}
              && x.before.loads + 3 <= x.bodyLoads < x.after.loads
              && After(x.atBody, body.fetches).bits <= x.verdict && Sticky(x.verdict) == Sticky(x.after.watch.bits)
              && x.after.watch.meter.Some? == x.before.watch.meter.Some?
              && (x.after.watch.meter.Some? ==>
                    && After(x.atBody, body.fetches).meter.Some?
                    && x.after.watch.meter == Some(Finished(After(x.atBody, body.fetches).meter.value)))
    ensures Sound(x.after.watch, false) && Renewing(x.after.watch) == Renewing(x.before.watch)
  {
    var b, a := x.before, x.after;
    var p := Prepared(b.watch, b.capabilities, a.capabilities, setup);
    PreparedSound(b.watch, b.capabilities, a.capabilities, setup);
    OpenedSound(p);
    if x.ran {
      RanDecides(x, setup, body, arrivals);
    } else {
      RefusedDecides(x, setup, arrivals);
    }
  }

  /** The body may be entered but for the final check. */
  predicate Opens(b: Machine, a: Machine, setup: Work, arrivals: nat -> set<Kind>) {
    var p := Prepared(b.watch, b.capabilities, a.capabilities, setup);
    && Clean(b, a.(watch := p), if Renewing(b.watch) then 3 else 2, setup, arrivals)
    && a.watch == Opened(p)
  }

  lemma OpensClean(b: Machine, m: Machine, setup: Work, arrivals: nat -> set<Kind>)
    requires Opens(b, m, setup, arrivals)
    ensures m.watch.bits == {} && m.capabilities == Applied && b.loads < m.loads
    ensures Renewing(m.watch) == Renewing(b.watch) && m.watch.(bits := {}) == m.watch
  {
  }

  lemma BodyWasEntered(b: Machine, m: Machine, x: Record, setup: Work, arrivals: nat -> set<Kind>)
    requires Opens(b, m, setup, arrivals) && Sticky(arrivals(m.loads)) == {}
    requires x.before == b && x.after.capabilities == m.capabilities && x.committed == Renewing(b.watch)
    requires x.bodyLoads == m.loads + 1 && x.atBody == m.watch
    ensures BodyEntered(x, setup, arrivals)
  {
    hide After;
    ArrivedStep(arrivals, b.loads, m.loads);
  }

  /** A cause that arrives after the renewal still executes no guest body. */
  lemma RefusedAtBody(b: Machine, m: Machine, x: Record, kind: Kind, setup: Work, arrivals: nat -> set<Kind>)
    requires Opens(b, m, setup, arrivals) && x.before == b && !x.ran && x.committed == Renewing(b.watch)
    requires x.outcome == Policy(kind) && Selected(Sticky(arrivals(m.loads))) == Some(kind)
    requires x.after == Machine(Closed(m.watch.(bits := Sticky(arrivals(m.loads)))), m.loads + 1, m.capabilities,
                                m.watch.meter)
    ensures Refused(x, setup, arrivals)
  {
    hide After, Selected;
    ArrivedStep(arrivals, b.loads, m.loads);
    assert Sticky(Sticky(arrivals(m.loads))) == Sticky(arrivals(m.loads));
  }

  /** Refused with no generation committed. */
  predicate RefusedSoFar(b: Machine, a: Machine, outcome: Outcome, setup: Work, arrivals: nat -> set<Kind>) {
    b.loads < a.loads && Refused(Record(b, a, outcome, false, false, 0, a.watch, {}), setup, arrivals)
  }

  /** Capabilities are in place, and `n` checks have found nothing. */
  predicate Clean(b: Machine, a: Machine, n: nat, setup: Work, arrivals: nat -> set<Kind>) {
    && a.capabilities == Applied && (b.capabilities == Pending ==> setup.result == Completed)
    && a.loads == b.loads + n + (if SetupRan(b.capabilities, a.capabilities) then 1 else 0)
    && b.watch.bits == {} && a.watch.bits == {} && Arrived(arrivals, b.loads, a.loads) == {}
    && a.watch == Prepared(b.watch, b.capabilities, a.capabilities, setup) && Renewing(a.watch) == Renewing(b.watch)
  }

  lemma PassedSetup(b: Machine, a: Machine, setup: Work, arrivals: nat -> set<Kind>)
    requires a.capabilities == Applied && b.watch.bits == {} && Arrived(arrivals, b.loads, b.loads + 1) == {}
    requires b.capabilities == Applied ==> a == b.(loads := b.loads + 1)
    requires b.capabilities == Pending ==>
               && a.loads == b.loads + 2 && setup.result == Completed
               && a.watch == After(b.watch, setup.fetches).(bits := a.watch.bits)
               && a.watch.bits == After(b.watch, setup.fetches).bits + Sticky(arrivals(b.loads + 1)) == {}
    requires b.capabilities != Failed && Renewing(a.watch) == Renewing(b.watch)
    ensures Clean(b, a, 1, setup, arrivals)
  {
    hide After;
    ArrivedStep(arrivals, b.loads, b.loads + 1);
  }

  lemma RefusedLater(b: Machine, m: Machine, a: Machine, n: nat, kind: Kind, setup: Work, arrivals: nat -> set<Kind>)
    requires Clean(b, m, n, setup, arrivals) && 0 < n < 3
    requires a == m.(loads := m.loads + 1, watch := m.watch.(bits := Sticky(arrivals(m.loads))))
    requires Selected(a.watch.bits) == Some(kind)
    ensures RefusedSoFar(b, a, Policy(kind), setup, arrivals)
  {
    hide After, Selected;
    ArrivedStep(arrivals, b.loads, m.loads);
  }

  lemma RefusedAtOnce(b: Machine, a: Machine, kind: Kind, setup: Work, arrivals: nat -> set<Kind>)
    requires a == b.(watch := b.watch.(bits := b.watch.bits + Arrived(arrivals, b.loads, a.loads)),
                     loads := b.loads + 1)
    requires Selected(a.watch.bits) == Some(kind)
    ensures RefusedSoFar(b, a, Policy(kind), setup, arrivals)
  {
  }

  lemma RefusedBySetup(b: Machine, a: Machine, outcome: Outcome, setup: Work, arrivals: nat -> set<Kind>)
    requires a.capabilities == Failed && b.watch.bits == {} && Arrived(arrivals, b.loads, b.loads + 1) == {}
    requires b.capabilities == Failed ==>
               a == b.(loads := b.loads + 1) && outcome == CapabilityApplicationFailed
    requires b.capabilities == Pending ==>
               && a.loads == b.loads + 2
               && a.watch == After(b.watch, setup.fetches).(bits := a.watch.bits)
               && a.watch.bits == After(b.watch, setup.fetches).bits + Sticky(arrivals(b.loads + 1))
               && (if Selected(a.watch.bits).Some? then outcome == Policy(Selected(a.watch.bits).value)
                   else outcome == CapabilityApplicationFailed && setup.result != Completed)
    requires b.capabilities != Applied
    ensures RefusedSoFar(b, a, outcome, setup, arrivals)
  {
    hide After, Selected;
    ArrivedStep(arrivals, b.loads, b.loads + 1);
    SelectedSpeaks(a.watch.bits);
    assert {} + Sticky(arrivals(b.loads + 1)) == Sticky(arrivals(b.loads + 1));
  }

  lemma ArrivedStep(arrivals: nat -> set<Kind>, from: nat, to: nat)
    requires from <= to
    ensures Arrived(arrivals, from, from) == {}
    ensures Arrived(arrivals, from, to + 1) == Arrived(arrivals, from, to) + Sticky(arrivals(to))
  {
  }

  /** What the isolate keeps between calls; `running` says that an execution is open. */
  predicate Sound(w: Watch, running: bool) {
    && Consistent(w.alarm)
    && (w.meter.Some? ==> Balanced(w.meter.value))
    && (Renewing(w) ==> (w.meter.value.active <==> running) && (!running ==> GasOut !in w.bits))
    && (w.meter.Some? && !Renewing(w) ==> w.meter.value.active)
  }

  /** One fetch keeps all of it. */
  lemma FetchKeeps(w: Watch, f: Fetch, running: bool)
    requires Sound(w, running)
    ensures var w' := Step(w, f).0;
            && Sound(w', running) && w.bits <= w'.bits && Renewing(w') == Renewing(w) && w'.meter.Some? == w.meter.Some?
  {
    StepOnAlarm(w, f);
    StepBalanced(w, f);
  }
}
