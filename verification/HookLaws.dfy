/**
 * What one fetch and one verdict say, in plain terms (sandbox.zig:1394-1515): exactly when the hook
 * raises and what it records, and which cause is reported when there are several.
 */
module HookLaws {
  import opened Execution
  import opened Gas
  import opened Hook
  import opened Results

  /** The hook raises exactly when it is armed, out of grace, undisturbed, and covered or out of patience. */
  lemma RaisesExactly(w: Watch, f: Fetch)
    ensures Step(w, f).1.Some? <==>
            && w.alarm.pending && w.alarm.grace == 0 && !f.unwinding
            && (f.catchable || w.alarm.waits >= 4096)
            && (|| w.bits != {} || f.terminated || f.anyOom
                || (w.meter.Some? && w.meter.value.active && w.meter.value.remaining == 0)
                || (w.depthLimit.Some? && 0 < f.depth && w.depthLimit.value < f.depth))
  {
    SelectedSpeaks(Causes(w, f));
    assert f.terminated ==> Script in Causes(w, f);
    assert f.anyOom ==> Memory in Causes(w, f);
    assert w.meter.Some? && Empty(w.meter.value) ==> GasOut in Causes(w, f);
    assert TooDeep(w.depthLimit, f.depth) ==> CallDepth in Causes(w, f);
    if w.bits != {} {
      var k :| k in w.bits;
      assert k in Causes(w, f);
    }
  }

  /** The clock is looked at on this fetch. */
  predicate Polls(w: Watch, f: Fetch) {
    Step(w, f).1.None? && w.clockCountdown <= 1 && !(f.hardOom && Causes(w, f) + Late(f) != {})
  }

  lemma StepBits(w: Watch, f: Fetch)
    ensures Step(w, f).0.bits ==
            Causes(w, f) + (if Step(w, f).1.Some? then When(f.terminatedLate, Script) else Late(f))
            + When(f.expired && Polls(w, f), Deadline)
  {
    hide Causes, Enforce, Late, Selected;
    SelectedSpeaks(Causes(w, f));
  }

  /** What is on record after a fetch: what was, and each cause exactly where its own condition holds. */
  lemma RecordsExactly(w: Watch, f: Fetch)
    ensures var (w', raised) := Step(w, f);
            && (Script in w'.bits <==> Script in w.bits || f.terminated || f.terminatedLate)
            && (Memory in w'.bits <==> Memory in w.bits || f.anyOom || (raised.None? && f.anyOomLate))
            && (GasOut in w'.bits <==>
                  GasOut in w.bits || (w.meter.Some? && w.meter.value.active && w.meter.value.remaining == 0))
            && (CallDepth in w'.bits <==>
                  CallDepth in w.bits || (w.depthLimit.Some? && 0 < f.depth && w.depthLimit.value < f.depth))
            && (Deadline in w'.bits <==> Deadline in w.bits || (f.expired && Polls(w, f)))
  {
    StepBits(w, f);
    hide Step, Polls;
  }

  /** How delivery moves once a cause is on record: raise, wait, spend grace, or arm the next raise. */
  lemma AlarmExactly(w: Watch, f: Fetch)
    requires Consistent(w.alarm) && w.bits != {}
    ensures var a, (w', raised) := w.alarm, Step(w, f);
            w'.alarm == (if raised.Some? then Alarm(false, 0, if a.armed then 0 else 1024, true)
                         else if f.unwinding then a
                         else if a.grace > 0 then a.(grace := a.grace - 1)
                         else if a.pending then a.(waits := a.waits + 1)
                         else a.(pending := true))
  {
    StepOnAlarm(w, f);
    var k :| k in w.bits;
    assert k in Causes(w, f);
    hide Step, Causes, Late;
  }

  /** What a fetch that is paid for leaves in the counters the host can read. */
  lemma CountersExactly(w: Watch, f: Fetch)
    ensures var w' := Step(w, f).0;
            && (w.depthLimit.Some? && 0 < f.depth && w.peakDepth < f.depth ==> w'.peakDepth == f.depth)
            && (w.depthLimit.None? || f.depth <= w.peakDepth ==> w'.peakDepth == w.peakDepth)
            && (w.meter.Some? && Step(w, f).1.None? && !f.hardOom ==>
                  && w'.meter.Some? && w'.gasRemaining == w'.meter.value.remaining
                  && (w.meter.value.active && w.meter.value.remaining > 0 ==>
                        w'.gasRemaining == w.meter.value.remaining - 1))
  {
    SelectedSpeaks(Causes(w, f));
    hide Causes, Enforce, Late, Selected;
  }

  // ---- delivery at the first chance ----------------------------------------------------------

  /** Nothing before fetch `k` is both covered and free of a pending exception. */
  predicate NoneCoveredBefore(fetches: seq<Fetch>, k: nat)
    requires k <= |fetches|
  {
    forall j :: 0 <= j < k ==> fetches[j].unwinding || !fetches[j].catchable
  }

  /**
   * Armed, with a cause recorded: within the patience of 4096 fetches, the first covered fetch that
   * finds no exception pending raises, and none before it does.
   */
  lemma {:induction false} FirstCoveredRaises(w: Watch, fetches: seq<Fetch>, k: nat)
    requires w.alarm.pending && w.alarm.grace == 0 && w.bits != {}
    requires k < |fetches| && fetches[k].catchable && !fetches[k].unwinding && NoneCoveredBefore(fetches, k)
    requires w.alarm.waits + Plain(fetches[..k]) <= 4096
    ensures Raises(w, fetches[..k]) == 0 && Step(After(w, fetches[..k]), fetches[k]).1.Some?
    decreases k
  {
    hide Step, Causes;
    if k == 0 {
      RaisesExactly(w, fetches[0]);
      assert fetches[..0] == [];
    } else {
      var w1 := Step(w, fetches[0]).0;
      assert fetches[..k][1..] == fetches[1..][..k - 1] && fetches[..k][0] == fetches[0];
      StillArmed(w, fetches[0]);
      forall j | 0 <= j < k - 1 ensures fetches[1..][j].unwinding || !fetches[1..][j].catchable {
        assert fetches[1..][j] == fetches[j + 1];
      }
      FirstCoveredRaises(w1, fetches[1..], k - 1);
    }
  }

  /** A fetch that cannot catch leaves the raise armed, and costs at most one wait. */
  lemma StillArmed(w: Watch, f: Fetch)
    requires w.alarm.pending && w.alarm.grace == 0 && w.bits != {} && (f.unwinding || !f.catchable)
    requires f.unwinding || w.alarm.waits < 4096
    ensures var (w', raised) := Step(w, f);
            && raised.None? && w'.alarm.pending && w'.alarm.grace == 0 && w'.bits != {}
            && w'.alarm.waits == w.alarm.waits + (if f.unwinding then 0 else 1)
  {
    StepOnAlarm(w, f);
    var k :| k in w.bits;
    assert k in Step(w, f).0.bits;
  }

  // ---- which cause is reported ---------------------------------------------------------------

  /** Memory outranks script, script the deadline, the deadline the call depth, and all of them gas. */
  lemma SelectedRanks(bits: set<Kind>)
    ensures Memory in bits ==> Selected(bits) == Some(Memory)
    ensures Script in bits && Memory !in bits ==> Selected(bits) == Some(Script)
    ensures Deadline in bits && bits !! {Memory, Script} ==> Selected(bits) == Some(Deadline)
    ensures CallDepth in bits && bits !! {Memory, Script, Deadline} ==> Selected(bits) == Some(CallDepth)
    ensures Selected(bits) == Some(GasOut) <==> bits == {GasOut}
    ensures Selected(bits).Some? ==> Selected(bits).value in bits
  {
    SelectedSpeaks(bits);
  }

  /** An execution reports a cause that is on record, the highest in rank, and gas only when it is alone. */
  lemma ReportedCause(x: Record, setup: Work, body: Work, arrivals: nat -> set<Kind>)
    requires Executed(x, setup, body, arrivals) && Sound(x.before.watch, false) && WorkFits(body)
    ensures var bits := x.after.watch.bits;
            && (Memory in bits ==> x.outcome == Policy(Memory))
            && (Script in bits && Memory !in bits ==> x.outcome == Policy(Script))
            && (Deadline in bits && bits !! {Memory, Script} ==> x.outcome == Policy(Deadline))
            && (CallDepth in bits && bits !! {Memory, Script, Deadline} ==> x.outcome == Policy(CallDepth))
            && (x.outcome.Policy? ==> x.outcome.kind == GasOut || x.outcome.kind in bits)
            && (x.outcome == Policy(GasOut) ==> bits <= {GasOut})
  {
    hide After, Arrived, Selected, Balanced, Consistent;
    if x.ran {
      SelectedRanks(x.verdict);
    } else {
      var p := Prepared(x.before.watch, x.before.capabilities, x.after.capabilities, setup);
      SelectedRanks(p.bits + Arrived(arrivals, x.before.loads, x.after.loads));
    }
  }
}
