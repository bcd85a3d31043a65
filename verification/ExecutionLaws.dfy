/**
 * Laws of whole histories of outer executions (sandbox.zig:988-1109): no termination is ever lost,
 * nothing but a recorded cause or failed capabilities refuses a run, generations count renewals,
 * and gas is cumulative per isolate or fresh per execution.
 */
module ExecutionLaws {
  import opened BigEndian
  import opened Execution
  import opened Gas
  import opened Hook
  import opened Results

  /** The start of a history: nothing running, and sound. */
  predicate StartsSound(xs: seq<Record>) {
    xs != [] && Sound(xs[0].before.watch, false)
  }

  lemma {:induction false} SoundAt(xs: seq<Record>, setup: Work, bodies: seq<Work>, arrivals: nat -> set<Kind>, i: nat)
    requires History(xs, setup, bodies, arrivals) && StartsSound(xs) && i < |xs|
    ensures Sound(xs[i].before.watch, false) && Sound(xs[i].after.watch, false)
    ensures Renewing(xs[i].before.watch) == Renewing(xs[0].before.watch)
    ensures Renewing(xs[i].after.watch) == Renewing(xs[0].before.watch)
  {
    hide Executed, Sound;
    if i > 0 {
      SoundAt(xs, setup, bodies, arrivals, i - 1);
      assert Linked(xs, i);
    }
    CausesDecide(xs[i], setup, bodies[i], arrivals);
  }

  // ---- no lost termination -------------------------------------------------------------------

  /** Whatever was recorded by the end of execution `i` is still recorded by the end of every later one. */
  lemma {:induction false} NeverCleared(
    xs: seq<Record>, setup: Work, bodies: seq<Work>, arrivals: nat -> set<Kind>, i: nat, j: nat)
    requires History(xs, setup, bodies, arrivals) && StartsSound(xs) && i <= j < |xs|
    ensures Sticky(xs[i].after.watch.bits) <= xs[j].after.watch.bits
    decreases j
  {
    hide Executed, Sound;
    if i < j {
      NeverCleared(xs, setup, bodies, arrivals, i, j - 1);
      assert Linked(xs, j);
      SoundAt(xs, setup, bodies, arrivals, j);
      CausesDecide(xs[j], setup, bodies[j], arrivals);
    }
  }

  /**
   * A cause other than gas that is on record when execution `i` ends decides its outcome, and keeps
   * every later execution from its body.
   */
  lemma NoLostTermination(
    xs: seq<Record>, setup: Work, bodies: seq<Work>, arrivals: nat -> set<Kind>, i: nat, j: nat)
    requires History(xs, setup, bodies, arrivals) && StartsSound(xs) && i <= j < |xs|
    requires Sticky(xs[i].after.watch.bits) != {}
    ensures xs[j].outcome.Policy? && (j > i ==> !xs[j].ran && !xs[j].committed)
  {
    hide Executed, Sound;
    NeverCleared(xs, setup, bodies, arrivals, i, j);
    SoundAt(xs, setup, bodies, arrivals, j);
    CausesDecide(xs[j], setup, bodies[j], arrivals);
    var k :| k in Sticky(xs[i].after.watch.bits);
    assert k in Sticky(xs[j].after.watch.bits);
    if j > i {
      NeverCleared(xs, setup, bodies, arrivals, i, j - 1);
      assert Linked(xs, j) && k in Sticky(xs[j].before.watch.bits);
    }
  }

  /** `terminate` observed by any fetch of a body that ran ends that execution in a policy error. */
  lemma FetchedTerminationCounts(x: Record, setup: Work, body: Work, arrivals: nat -> set<Kind>, k: nat)
    requires Executed(x, setup, body, arrivals) && Sound(x.before.watch, false) && x.ran && k < |body.fetches|
    requires Sticky(Brought(body.fetches[k], x.atBody.depthLimit)) != {}
    ensures x.outcome.Policy? && Brought(body.fetches[k], x.atBody.depthLimit) <= x.after.watch.bits
  {
    hide Executed, Sound, Brought;
    CausesDecide(x, setup, body, arrivals);
    EveryCauseRecorded(x.atBody, body.fetches, k);
    var c :| c in Sticky(Brought(body.fetches[k], x.atBody.depthLimit));
    assert c in Sticky(x.verdict);
    NoGasBrought(body.fetches[k], x.atBody.depthLimit);
    assert Brought(body.fetches[k], x.atBody.depthLimit) <= Sticky(x.verdict);
  }

  lemma NoGasBrought(f: Fetch, depthLimit: Option<nat>)
    ensures GasOut !in Brought(f, depthLimit)
  {
  }

  /**
   * A cause that lands before read `r` of the cause bits, in this execution or since the last one, is
   * on record afterwards and decides the outcome; before the body is entered, it is never entered.
   */
  lemma ReadTerminationCounts(x: Record, setup: Work, body: Work, arrivals: nat -> set<Kind>, r: nat)
    requires Executed(x, setup, body, arrivals) && Sound(x.before.watch, false)
    requires x.before.loads <= r < x.after.loads && Sticky(arrivals(r)) != {}
    ensures Sticky(arrivals(r)) <= x.after.watch.bits && x.outcome.Policy?
    ensures x.ran ==> x.bodyLoads <= r
    ensures r == x.before.loads ==> !x.ran
  {
    hide Executed, Sound;
    CausesDecide(x, setup, body, arrivals);
    ArrivedAt(arrivals, x.before.loads, x.after.loads, r);
    var c :| c in Sticky(arrivals(r));
    assert c in Sticky(x.after.watch.bits);
    if x.ran && r < x.bodyLoads {
      ArrivedAt(arrivals, x.before.loads, x.bodyLoads, r);
    }
  }

  lemma {:induction false} ArrivedAt(arrivals: nat -> set<Kind>, from: nat, until: nat, r: nat)
    requires from <= r < until
    ensures Sticky(arrivals(r)) <= Arrived(arrivals, from, until)
    decreases until
  {
    if r < until - 1 {
      ArrivedAt(arrivals, from, until - 1, r);
    }
  }

  /** In plain terms: any cause but gas, once on record, is there for good, and no later body runs. */
  lemma RecordedForGood(
    xs: seq<Record>, setup: Work, bodies: seq<Work>, arrivals: nat -> set<Kind>, i: nat, j: nat, c: Kind)
    requires History(xs, setup, bodies, arrivals) && StartsSound(xs) && i <= j < |xs|
    requires c != GasOut && c in xs[i].after.watch.bits
    ensures c in xs[j].after.watch.bits && xs[j].outcome.Policy? && (j > i ==> !xs[j].ran && !xs[j].committed)
  {
    hide Executed, Sound;
    NeverCleared(xs, setup, bodies, arrivals, i, j);
    assert c in Sticky(xs[i].after.watch.bits);
    NoLostTermination(xs, setup, bodies, arrivals, i, j);
  }

  /** A cause but gas that lands before read `r` is on record, and stops the body if it is not yet entered. */
  lemma ReadForGood(x: Record, setup: Work, body: Work, arrivals: nat -> set<Kind>, r: nat, c: Kind)
    requires Executed(x, setup, body, arrivals) && Sound(x.before.watch, false)
    requires x.before.loads <= r < x.after.loads && c in arrivals(r) && c != GasOut
    ensures c in x.after.watch.bits && x.outcome.Policy? && (x.ran ==> x.bodyLoads <= r)
  {
    hide Executed, Sound;
    assert c in Sticky(arrivals(r));
    ReadTerminationCounts(x, setup, body, arrivals, r);
  }

  /** A fetch of the body that sees a termination or a memory breach puts it on record for the final check. */
  lemma FetchForGood(x: Record, setup: Work, body: Work, arrivals: nat -> set<Kind>, k: nat)
    requires Executed(x, setup, body, arrivals) && Sound(x.before.watch, false) && x.ran && k < |body.fetches|
    ensures body.fetches[k].terminated || body.fetches[k].terminatedLate ==>
              Script in x.after.watch.bits && x.outcome.Policy?
    ensures body.fetches[k].anyOom ==> Memory in x.after.watch.bits && x.outcome.Policy?
  {
    hide Executed, Sound;
    var brought := Brought(body.fetches[k], x.atBody.depthLimit);
    if body.fetches[k].terminated || body.fetches[k].terminatedLate {
      assert Script in Sticky(brought);
      FetchedTerminationCounts(x, setup, body, arrivals, k);
    }
    if body.fetches[k].anyOom {
      assert Memory in Sticky(brought);
      FetchedTerminationCounts(x, setup, body, arrivals, k);
    }
  }

  /**
   * Under per-execution gas the body starts with nothing recorded, delivery disarmed and the whole
   * allowance, and leaves delivery disarmed; otherwise the alarm carries over.
   */
  lemma DeliveryRestarts(x: Record, setup: Work, body: Work, arrivals: nat -> set<Kind>)
    requires Executed(x, setup, body, arrivals) && Sound(x.before.watch, false) && x.ran
    ensures x.atBody.bits == {}
    ensures Renewing(x.before.watch) ==>
              && x.atBody.alarm == Alarm(false, 0, 0, false) && x.after.watch.alarm == Alarm(false, 0, 0, false)
              && x.atBody.meter.Some? && x.atBody.meter.value.used == 0 && x.atBody.meter.value.active
              && x.atBody.meter.value.remaining == x.atBody.meter.value.limit
    ensures !Renewing(x.before.watch) ==> x.after.watch.alarm == After(x.atBody, body.fetches).alarm
    ensures x.after.lastGas == After(x.atBody, body.fetches).meter
  {
    hide After, Arrived, Selected, Consistent, Balanced;
    var p := Prepared(x.before.watch, x.before.capabilities, x.after.capabilities, setup);
    PreparedSound(x.before.watch, x.before.capabilities, x.after.capabilities, setup);
    OpenedSound(p);
    AfterKeeps(x.atBody, body.fetches, true);
  }

  // ---- nothing else refuses ------------------------------------------------------------------

  /** Capabilities are there or can be had, the setup recording nothing. */
  predicate CanPrepare(b: Machine, setup: Work) {
    b.capabilities == Applied
    || (b.capabilities == Pending && setup.result == Completed && After(b.watch, setup.fetches).bits == {})
  }

  /**
   * With capabilities to be had, nothing recorded but gas that renews, and nothing arriving before the
   * body, the body is entered. Gas alone never blocks the next per-execution run.
   */
  lemma NothingElseRefuses(x: Record, setup: Work, body: Work, arrivals: nat -> set<Kind>)
    requires Executed(x, setup, body, arrivals) && Sound(x.before.watch, false)
    requires CanPrepare(x.before, setup) && Clear(x.before.watch, x.before.watch.bits)
    requires Arrived(arrivals, x.before.loads, x.before.loads + 5) == {}
    ensures x.ran
  {
    hide After, Balanced, Consistent;
    if !x.ran {
      var b, a := x.before, x.after;
      ArrivedGrows(arrivals, b.loads, a.loads, b.loads + 5);
      var p := Prepared(b.watch, b.capabilities, a.capabilities, setup);
      assert p.bits == {};
      assert p.bits + Arrived(arrivals, b.loads, a.loads) == {};
      SelectedSpeaks({});
    }
  }

  // ---- generations ---------------------------------------------------------------------------

  function Commits(xs: seq<Record>): nat {
    if xs == [] then 0 else Commits(xs[..|xs| - 1]) + (if xs[|xs| - 1].committed then 1 else 0)
  }

  /** The saturating generation counter after `commits` renewals. */
  function Advance(generation: nat, commits: nat): nat {
    if generation + commits < U64 then generation + commits else U64 - 1
  }

  /** The meters of two states belong to one allowance, `commits` generations apart. */
  predicate Later(w: Watch, w': Watch, commits: nat) {
    && w'.meter.Some? == w.meter.Some?
    && (w.meter.Some? ==>
          && w'.meter.value.scope == w.meter.value.scope && w'.meter.value.limit == w.meter.value.limit
          && w'.meter.value.generation == Advance(w.meter.value.generation, commits))
  }

  lemma StepLater(w: Watch, f: Fetch)
    requires Sound(w, true) || Sound(w, false)
    ensures Later(w, Step(w, f).0, 0)
  {
    StepBalanced(w, f);
  }

  lemma {:induction false} AfterLater(w: Watch, fetches: seq<Fetch>, running: bool)
    requires Sound(w, running)
    ensures Later(w, After(w, fetches), 0)
    decreases |fetches|
  {
    hide Step;
    if fetches != [] {
      StepLater(w, fetches[0]);
      FetchKeeps(w, fetches[0], running);
      AfterLater(Step(w, fetches[0]).0, fetches[1..], running);
    }
  }

  /** The generation advances by one with a committed renewal, and not otherwise. */
  lemma GenerationAdvances(x: Record, setup: Work, body: Work, arrivals: nat -> set<Kind>)
    requires Executed(x, setup, body, arrivals) && Sound(x.before.watch, false)
    ensures Later(x.before.watch, x.after.watch, if x.committed then 1 else 0)
    ensures x.ran && Renewing(x.before.watch) ==> x.committed
    ensures x.committed ==> Renewing(x.before.watch)
  {
    hide After, Arrived, Selected, Consistent;
    var p := Prepared(x.before.watch, x.before.capabilities, x.after.capabilities, setup);
    AfterLater(x.before.watch, setup.fetches, false);
    PreparedSound(x.before.watch, x.before.capabilities, x.after.capabilities, setup);
    OpenedSound(p);
    if x.ran {
      AfterLater(Opened(p), body.fetches, true);
    }
  }

  /** Over any history the counter is the number of committed renewals, saturating. */
  lemma {:induction false} GenerationsCountCommits(
    xs: seq<Record>, setup: Work, bodies: seq<Work>, arrivals: nat -> set<Kind>, n: nat)
    requires History(xs, setup, bodies, arrivals) && StartsSound(xs) && n < |xs|
    ensures Later(xs[0].before.watch, xs[n].after.watch, Commits(xs[..n + 1]))
  {
    hide Executed, Sound;
    assert xs[..n + 1][..n] == xs[..n];
    if n > 0 {
      GenerationsCountCommits(xs, setup, bodies, arrivals, n - 1);
      assert Linked(xs, n);
    }
    SoundAt(xs, setup, bodies, arrivals, n);
    GenerationAdvances(xs[n], setup, bodies[n], arrivals);
  }

  // ---- gas over outer executions -------------------------------------------------------------

  /** Nothing but gas can become a cause in this execution. */
  predicate OnlyGas(x: Record, setup: Work, body: Work, arrivals: nat -> set<Kind>) {
    && AllUndisturbed(setup.fetches, x.before.watch.depthLimit)
    && AllUndisturbed(body.fetches, x.before.watch.depthLimit)
    && Arrived(arrivals, x.before.loads, x.after.loads) == {}
  }

  /** The fetches an execution made under an isolate-wide meter, its capability setup included. */
  function Spent(x: Record, setup: Work, body: Work): nat {
    (if SetupRan(x.before.capabilities, x.after.capabilities) then |setup.fetches| else 0)
    + (if x.ran then |body.fetches| else 0)
  }

  /**
   * Under `.per_isolate` gas, an execution uses one unit per fetch or all that is left, gas is on
   * record exactly when it wanted more, and then it is what the execution ends in.
   */
  lemma PerIsolateGas(x: Record, setup: Work, body: Work, arrivals: nat -> set<Kind>)
    requires Executed(x, setup, body, arrivals) && Sound(x.before.watch, false) && OnlyGas(x, setup, body, arrivals)
    requires Metered(x.before.watch) && !Renewing(x.before.watch)
    ensures var m, spent := x.before.watch.meter.value, Spent(x, setup, body);
            && Metered(x.after.watch) && x.after.watch.depthLimit == x.before.watch.depthLimit
            && x.after.watch.meter.value.limit == m.limit
            && x.after.watch.meter.value.used == m.used + Least(spent, m.remaining)
            && x.after.watch.bits == (if spent > m.remaining then {GasOut} else x.before.watch.bits)
            && (x.after.watch.bits != {} ==> x.outcome == Policy(GasOut))
            && (x.after.watch.bits == {} && x.ran ==> x.outcome == body.result)
            && (x.before.watch.bits != {} ==> !x.ran && spent == 0)
  {
    hide After, Consistent, Sound, Undisturbed;
    var w := x.before.watch;
    var p := Prepared(w, x.before.capabilities, x.after.capabilities, setup);
    GasLaw(w, setup.fetches);
    SelectedSpeaks({});
    SelectedSpeaks({GasOut});
    MeterSum(w);
    if x.ran {
      ArrivedSplits(arrivals, x.before.loads, x.bodyLoads, x.after.loads);
      assert Opened(p) == p;
      GasLaw(p, body.fetches);
      MeterSum(p);
    }
  }

  /** Units asked for by the first `n` executions. */
  function TotalSpent(xs: seq<Record>, setup: Work, bodies: seq<Work>, n: nat): nat
    requires n <= |xs| == |bodies|
  {
    if n == 0 then 0 else TotalSpent(xs, setup, bodies, n - 1) + Spent(xs[n - 1], setup, bodies[n - 1])
  }

  predicate AllOnlyGas(xs: seq<Record>, setup: Work, bodies: seq<Work>, arrivals: nat -> set<Kind>)
    requires |xs| == |bodies|
  {
    forall i :: 0 <= i < |xs| ==> OnlyGas(xs[i], setup, bodies[i], arrivals)
  }

  /**
   * `.per_isolate` gas is one allowance for the isolate's life: over any history the units used are
   * the units asked for or the allowance, and from the execution that asks for one more on, every
   * execution ends in exhaustion.
   */
  lemma {:induction false} GasIsCumulative(
    xs: seq<Record>, setup: Work, bodies: seq<Work>, arrivals: nat -> set<Kind>, n: nat)
    requires History(xs, setup, bodies, arrivals) && StartsSound(xs) && AllOnlyGas(xs, setup, bodies, arrivals)
    requires var w := xs[0].before.watch; Metered(w) && !Renewing(w) && w.bits == {}
    requires n < |xs|
    ensures var m, total, w' := xs[0].before.watch.meter.value, TotalSpent(xs, setup, bodies, n + 1), xs[n].after.watch;
            && Metered(w') && w'.meter.value.limit == m.limit
            && w'.meter.value.used == m.used + Least(total, m.remaining)
            && w'.bits == (if total > m.remaining then {GasOut} else {})
            && (total > m.remaining ==> xs[n].outcome == Policy(GasOut))
            && (total <= m.remaining && xs[n].ran ==> xs[n].outcome == bodies[n].result)
  {
    hide Executed, Sound, OnlyGas, Spent;
    SoundAt(xs, setup, bodies, arrivals, n);
    MeterSum(xs[0].before.watch);
    if n > 0 {
      GasIsCumulative(xs, setup, bodies, arrivals, n - 1);
      assert Linked(xs, n);
    }
    MeterSum(xs[n].before.watch);
    PerIsolateGas(xs[n], setup, bodies[n], arrivals);
  }

  /**
   * `.per_execution` gas is a fresh allowance for each body that runs: it uses one unit per fetch or
   * all of them, and ends in exhaustion exactly when it wanted more, whatever came before. Nothing of
   * it is left on record.
   */
  lemma GasIsFresh(x: Record, setup: Work, body: Work, arrivals: nat -> set<Kind>)
    requires Executed(x, setup, body, arrivals) && Sound(x.before.watch, false) && OnlyGas(x, setup, body, arrivals)
    requires Renewing(x.before.watch) && x.ran
    ensures var limit := x.before.watch.meter.value.limit;
            && x.after.watch.meter.Some? && x.after.watch.meter.value.limit == limit && x.after.watch.bits == {}
            && x.after.watch.meter.value.used == Least(|body.fetches|, limit)
            && x.outcome == (if |body.fetches| > limit then Policy(GasOut) else body.result)
  {
    hide After, Consistent, Undisturbed;
    var w := x.before.watch;
    var p := Prepared(w, x.before.capabilities, x.after.capabilities, setup);
    AfterLater(w, setup.fetches, false);
    PreparedSound(w, x.before.capabilities, x.after.capabilities, setup);
    AfterDepthLimit(w, setup.fetches);
    OpenedSound(p);
    ArrivedSplits(arrivals, x.before.loads, x.bodyLoads, x.after.loads);
    GasLaw(Opened(p), body.fetches);
    SelectedSpeaks({});
    SelectedSpeaks({GasOut});
  }

  lemma {:induction false} AfterDepthLimit(w: Watch, fetches: seq<Fetch>)
    ensures After(w, fetches).depthLimit == w.depthLimit
    decreases |fetches|
  {
    hide Step;
    if fetches != [] {
      StepRecords(w, fetches[0]);
      AfterDepthLimit(Step(w, fetches[0]).0, fetches[1..]);
    }
  }
}
