/**
 * Who may enter an isolate (sandbox.zig:893-986, alloc.zig:313-323): the non-blocking operation
 * lock, the phase it guards, and the thread-local attribution that tells legitimate re-entry apart,
 * over any number of threads and isolates.
 */
module EntryProtocol {
  import opened Lifecycle
  import opened Results

  type Iso = nat
  type Thread = nat

  datatype Stage =
    | Admitted   // lock held, nothing marked yet
    | Setup      // capability code running under attribution
    | Committed  // phase marked running, final preflight
    | Body       // guest code running under attribution
    | Closing    // attribution restored, phase still running
    | Done       // phase idle again, lock still held

  /** What a thread is in the middle of, and the attribution its guard has put aside. */
  datatype Pc =
    | Outside
    | Outer(a: Iso, stage: Stage, nested: nat, saved: Option<Iso>)
    | Host(a: Iso, attributed: bool, inside: bool, saved: Option<Iso>)

  datatype Reply = Quiet | GrantedOuter | GrantedNested | GrantedHost | IsolatePreparing | IsolateThreadBusy

  datatype Action =
    | Execute(a: Iso)                     // admitExecution
    | HostOp(a: Iso, attributed: bool)    // lockIdlePhase
    | PushSetup | PopSetup
    | Commit | PushBody | NestedReturn | PopBody | Finish
    | Unlock
    | PushHost | PopHost | UnlockIdle

  /** What one thread can see while it acts on one isolate. `fault` is a failed assertion or a foreign unlock. */
  datatype Local = Local(pc: Pc, tls: Option<Iso>, lock: Option<Thread>, phase: Phase, fault: bool)

  /** Calls into the Isolate API come from outside any bracket, or from guest and host code inside one. */
  predicate MayCall(pc: Pc) {
    match pc
    case Outside => true
    case Outer(_, stage, _, _) => stage == Setup || stage == Body
    case Host(_, _, inside, _) => inside
  }

  /** The isolate an action is about. */
  function Target(pc: Pc, act: Action): Option<Iso> {
    match act
    case Execute(a) => Some(a)
    case HostOp(a, _) => Some(a)
    case _ => match pc case Outside => None case Outer(a, _, _, _) => Some(a) case Host(a, _, _, _) => Some(a)
  }

  /** The program's own control flow; everything else is up to the scheduler and the callers. */
  predicate Enabled(pc: Pc, act: Action) {
    match act
    case Execute(_) => MayCall(pc)
    case HostOp(_, _) => MayCall(pc)
    case PushSetup => pc.Outer? && pc.stage == Admitted
    case PopSetup => pc.Outer? && pc.stage == Setup
    case Commit => pc.Outer? && pc.stage == Admitted
    case PushBody => pc.Outer? && pc.stage == Committed
    case NestedReturn => pc.Outer? && pc.stage == Body && pc.nested > 0
    case PopBody => pc.Outer? && pc.stage == Body && pc.nested == 0
    case Finish => pc.Outer? && (pc.stage == Committed || pc.stage == Closing)
    case Unlock => pc.Outer? && (pc.stage == Admitted || pc.stage == Done)
    case PushHost => pc.Host? && pc.attributed && !pc.inside
    case PopHost => pc.Host? && pc.inside
    case UnlockIdle => pc.Host? && !pc.inside
  }

  /** Guard against unlocking what another thread holds, or nobody. */
  function Released(x: Local, i: Thread): Local {
    x.(lock := None, fault := x.fault || x.lock != Some(i))
  }

  /** pushIsolate: the guard keeps the attribution it replaces. */
  function Pushed(x: Local): Local
    requires !x.pc.Outside?
  {
    x.(tls := Some(x.pc.a), pc := x.pc.(saved := x.tls))
  }

  /** restoreIsolate: only over the guard's own attribution, and back to what the guard kept. */
  function Restored(x: Local): Local
    requires !x.pc.Outside?
  {
    x.(tls := x.pc.saved, fault := x.fault || x.tls != Some(x.pc.a))
  }

  /** admitExecution. */
  function Admission(x: Local, i: Thread, a: Iso): (Local, Reply) {
    if x.tls.Some? then
      if x.tls != Some(a) then (x, IsolateThreadBusy)
      else match x.phase
           case Running =>
             if x.pc.Outer? && x.pc.stage == Body && x.pc.a == a
             then (x.(pc := x.pc.(nested := x.pc.nested + 1)), GrantedNested)
             else (x.(fault := true), GrantedNested)
           case Preparing => (x, IsolatePreparing)
           case Idle => (x, IsolateThreadBusy)
    else if x.lock.Some? then (x, IsolateThreadBusy)
    else
      var locked := x.(lock := Some(i));
      match x.phase
      case Idle => (locked.(pc := Outer(a, Admitted, 0, None)), GrantedOuter)
      case Preparing => (Released(locked, i), IsolatePreparing)
      case Running => (Released(locked, i), IsolateThreadBusy)
  }

  /** lockIdlePhase. */
  function LockIdlePhase(x: Local, i: Thread, a: Iso, attributed: bool): (Local, Reply) {
    if x.tls.Some? then
      (x, if x.tls == Some(a) && x.phase == Preparing then IsolatePreparing else IsolateThreadBusy)
    else if x.lock.Some? then (x, IsolateThreadBusy)
    else
      var locked := x.(lock := Some(i));
      match x.phase
      case Idle => (locked.(pc := Host(a, attributed, false, None), phase := Preparing), GrantedHost)
      case Preparing => (Released(locked, i), IsolatePreparing)
      case Running => (Released(locked, i), IsolateThreadBusy)
  }

  function Act(x: Local, i: Thread, act: Action): (Local, Reply)
    requires Enabled(x.pc, act)
  {
    match act
    case Execute(a) => Admission(x, i, a)
    case HostOp(a, attributed) => LockIdlePhase(x, i, a, attributed)
    case PushSetup => (Pushed(x).(phase := Preparing, pc := Pushed(x).pc.(stage := Setup)), Quiet)
    case PopSetup => (Restored(x).(phase := Idle, pc := x.pc.(stage := Admitted)), Quiet)
    case Commit => (x.(phase := Running, pc := x.pc.(stage := Committed)), Quiet)
    case PushBody => (Pushed(x).(pc := Pushed(x).pc.(stage := Body)), Quiet)
    case NestedReturn => (x.(pc := x.pc.(nested := x.pc.nested - 1)), Quiet)
    case PopBody => (Restored(x).(pc := x.pc.(stage := Closing)), Quiet)
    case Finish => (x.(phase := Idle, pc := x.pc.(stage := Done)), Quiet)
    case Unlock => (Released(x, i).(pc := Outside), Quiet)
    case PushHost => (Pushed(x).(pc := Pushed(x).pc.(inside := true)), Quiet)
    case PopHost => (Restored(x).(pc := x.pc.(inside := false)), Quiet)
    case UnlockIdle =>
      (Released(x.(phase := Idle, fault := x.fault || x.phase != Preparing), i).(pc := Outside), Quiet)
  }

  // ---- all threads and isolates --------------------------------------------------------------

  datatype State = State(
    pcs: map<Thread, Pc>, tls: map<Thread, Option<Iso>>, locks: map<Iso, Option<Thread>>, phases: map<Iso, Phase>,
    fault: bool)

  function PcOf(s: State, i: Thread): Pc {
    if i in s.pcs then s.pcs[i] else Outside
  }

  function TlsOf(s: State, i: Thread): Option<Iso> {
    if i in s.tls then s.tls[i] else None
  }

  function LockOf(s: State, a: Iso): Option<Thread> {
    if a in s.locks then s.locks[a] else None
  }

  function PhaseOf(s: State, a: Iso): Phase {
    if a in s.phases then s.phases[a] else Idle
  }

  function LocalOf(s: State, i: Thread, a: Iso): Local {
    Local(PcOf(s, i), TlsOf(s, i), LockOf(s, a), PhaseOf(s, a), s.fault)
  }

  function Put(s: State, i: Thread, a: Iso, x: Local): State {
    State(s.pcs[i := x.pc], s.tls[i := x.tls], s.locks[a := x.lock], s.phases[a := x.phase], x.fault)
  }

  function Next(s: State, i: Thread, act: Action): (State, Reply)
    requires Enabled(PcOf(s, i), act)
  {
    var a := Target(PcOf(s, i), act);
    if a.None? then (s, Quiet)
    else
      var (x, reply) := Act(LocalOf(s, i, a.value), i, act);
      (Put(s, i, a.value, x), reply)
  }

  const START := State(map[], map[], map[], map[], false)

  // ---- the invariant -------------------------------------------------------------------------

  /** The isolate a thread has a bracket open on. */
  function Bracket(pc: Pc): Option<Iso> {
    match pc
    case Outside => None
    case Outer(a, _, _, _) => Some(a)
    case Host(a, _, _, _) => Some(a)
  }

  function PhaseFor(pc: Pc): Phase {
    match pc
    case Outside => Idle
    case Outer(_, stage, _, _) =>
      (match stage
       case Admitted => Idle case Done => Idle
       case Setup => Preparing
       case _ => Running)
    case Host(_, _, _, _) => Preparing
  }

  function TlsFor(pc: Pc): Option<Iso> {
    match pc
    case Outside => None
    case Outer(a, stage, _, _) => if stage == Setup || stage == Body then Some(a) else None
    case Host(a, _, inside, _) => if inside then Some(a) else None
  }

  /** A bracket opens on an unattributed thread, so that is what its guard has put aside. */
  predicate SavedNothing(pc: Pc) {
    TlsFor(pc).Some? ==> pc.saved.None?
  }

  /** A thread's attribution, and its bracket's lock and phase, are exactly what its position says. */
  predicate ThreadAgrees(s: State, i: Thread) {
    && TlsOf(s, i) == TlsFor(PcOf(s, i)) && SavedNothing(PcOf(s, i))
    && (Bracket(PcOf(s, i)).Some? ==>
          LockOf(s, Bracket(PcOf(s, i)).value) == Some(i)
          && PhaseOf(s, Bracket(PcOf(s, i)).value) == PhaseFor(PcOf(s, i)))
  }

  /** A lock is held by the thread with a bracket open, and an unlocked isolate is idle. */
  predicate IsoAgrees(s: State, a: Iso) {
    match LockOf(s, a)
    case Some(i) => Bracket(PcOf(s, i)) == Some(a)
    case None => PhaseOf(s, a) == Idle
  }

  ghost predicate Inv(s: State) {
    !s.fault && (forall i :: ThreadAgrees(s, i)) && (forall a :: IsoAgrees(s, a))
  }

  /** One action, seen by the thread that takes it. */
  predicate LocalAgrees(x: Local, i: Thread, a: Iso) {
    && !x.fault && x.tls == TlsFor(x.pc) && SavedNothing(x.pc)
    && (Bracket(x.pc) == Some(a) ==> x.lock == Some(i) && x.phase == PhaseFor(x.pc))
    && (x.lock == Some(i) ==> Bracket(x.pc) == Some(a))
    && (x.lock.None? ==> x.phase == Idle)
  }

  lemma ActAgrees(x: Local, i: Thread, act: Action)
    requires Enabled(x.pc, act) && Target(x.pc, act).Some? && LocalAgrees(x, i, Target(x.pc, act).value)
    ensures var (x', reply) := Act(x, i, act);
            && LocalAgrees(x', i, Target(x.pc, act).value)
            // A bracket on another isolate is left alone.
            && (Bracket(x.pc).Some? && Bracket(x.pc) != Target(x.pc, act) ==> x'.pc == x.pc)
            && (Bracket(x'.pc) == Bracket(x.pc) || Bracket(x'.pc) == Target(x.pc, act) || Bracket(x'.pc).None?)
            // Another thread's lock, and the phase it guards, are left alone.
            && (x.lock.Some? && x.lock != Some(i) ==> x'.lock == x.lock && x'.phase == x.phase)
            && (x'.lock == x.lock || x'.lock.None? || x'.lock == Some(i))
  {
  }

  lemma StepKeepsThread(s: State, i: Thread, act: Action, j: Thread)
    requires Inv(s) && Enabled(PcOf(s, i), act)
    ensures ThreadAgrees(Next(s, i, act).0, j)
  {
    hide Act, Enabled;
    var a := Target(PcOf(s, i), act);
    if a.Some? {
      LocalView(s, i, a.value);
      ActAgrees(LocalOf(s, i, a.value), i, act);
      assert ThreadAgrees(s, j) && ThreadAgrees(s, i);
    }
    assert ThreadAgrees(s, j);
  }

  lemma LocalView(s: State, i: Thread, a: Iso)
    requires Inv(s)
    ensures LocalAgrees(LocalOf(s, i, a), i, a)
  {
    assert ThreadAgrees(s, i) && IsoAgrees(s, a);
  }

  lemma StepKeepsIso(s: State, i: Thread, act: Action, b: Iso)
    requires Inv(s) && Enabled(PcOf(s, i), act)
    ensures IsoAgrees(Next(s, i, act).0, b) && !Next(s, i, act).0.fault
  {
    hide Act, Enabled;
    var a := Target(PcOf(s, i), act);
    if a.Some? {
      LocalView(s, i, a.value);
      ActAgrees(LocalOf(s, i, a.value), i, act);
      assert IsoAgrees(s, a.value);
    }
    assert IsoAgrees(s, b);
  }

  lemma StepKeeps(s: State, i: Thread, act: Action)
    requires Inv(s) && Enabled(PcOf(s, i), act)
    ensures Inv(Next(s, i, act).0)
  {
    hide ThreadAgrees, IsoAgrees, Next;
    var s' := Next(s, i, act).0;
    forall j ensures ThreadAgrees(s', j) {
      StepKeepsThread(s, i, act, j);
    }
    forall b ensures IsoAgrees(s', b) {
      StepKeepsIso(s, i, act, b);
    }
    StepKeepsIso(s, i, act, 0);
  }

  // ---- whole runs ----------------------------------------------------------------------------

  ghost predicate StepAt(states: seq<State>, trace: seq<(Thread, Action)>, k: nat)
    requires |states| == |trace| + 1 && k < |trace|
  {
    Enabled(PcOf(states[k], trace[k].0), trace[k].1) && states[k + 1] == Next(states[k], trace[k].0, trace[k].1).0
  }

  ghost predicate Run(states: seq<State>, trace: seq<(Thread, Action)>) {
    && |states| == |trace| + 1 && states[0] == START
    && forall k :: 0 <= k < |trace| ==> StepAt(states, trace, k)
  }

  lemma {:induction false} RunInv(states: seq<State>, trace: seq<(Thread, Action)>, k: nat)
    requires Run(states, trace) && k < |states|
    ensures Inv(states[k])
  {
    hide Inv;
    if k == 0 {
      StartInv();
    } else {
      RunInv(states, trace, k - 1);
      assert StepAt(states, trace, k - 1);
      StepKeeps(states[k - 1], trace[k - 1].0, trace[k - 1].1);
    }
  }

  lemma StartInv()
    ensures Inv(START)
  {
  }

  /**
   * In every run: an isolate's phase is other than idle only under its lock; one thread at most has
   * a bracket open on it; no assertion fails and no lock is released twice or by a stranger; and a
   * thread outside every bracket holds no lock and carries no attribution.
   */
  lemma EntryDiscipline(states: seq<State>, trace: seq<(Thread, Action)>, k: nat, i: Thread, j: Thread, a: Iso)
    requires Run(states, trace) && k < |states|
    ensures var s := states[k];
            && !s.fault
            && (PhaseOf(s, a) != Idle ==> LockOf(s, a).Some?)
            && (Bracket(PcOf(s, i)) == Some(a) && Bracket(PcOf(s, j)) == Some(a) ==> i == j)
            && (PcOf(s, i).Outside? ==> TlsOf(s, i).None? && LockOf(s, a) != Some(i))
  {
    RunInv(states, trace, k);
    var s := states[k];
    assert ThreadAgrees(s, i) && ThreadAgrees(s, j) && IsoAgrees(s, a);
  }

  // ---- attribution comes back ----------------------------------------------------------------

  predicate Pushes(act: Action) {
    act.PushSetup? || act.PushBody? || act.PushHost?
  }

  predicate Pops(act: Action) {
    act.PopSetup? || act.PopBody? || act.PopHost?
  }

  /** Between the push and the pop of a bracket, its guard still holds the attribution it replaced. */
  lemma {:induction false} GuardKeeps(states: seq<State>, trace: seq<(Thread, Action)>, i: Thread, k: nat, m: nat)
    requires Run(states, trace) && k < m < |states| && trace[k].0 == i && Pushes(trace[k].1)
    requires forall j :: k < j < m && trace[j].0 == i ==> !Pushes(trace[j].1) && !Pops(trace[j].1)
    ensures var pc := PcOf(states[m], i); TlsFor(pc).Some? && pc.saved == TlsOf(states[k], i)
    decreases m
  {
    hide Inv, Enabled, Next;
    assert StepAt(states, trace, m - 1);
    RunInv(states, trace, m - 1);
    if m - 1 > k {
      GuardKeeps(states, trace, i, k, m - 1);
    }
    GuardStep(states[m - 1], trace[m - 1].0, trace[m - 1].1, i);
  }

  lemma GuardStep(s: State, who: Thread, act: Action, i: Thread)
    requires Inv(s) && Enabled(PcOf(s, who), act)
    ensures var pc, pc' := PcOf(s, i), PcOf(Next(s, who, act).0, i);
            if who == i && Pushes(act) then TlsFor(pc').Some? && pc'.saved == TlsOf(s, i)
            else TlsFor(pc).Some? && !(who == i && Pops(act)) ==> TlsFor(pc').Some? && pc'.saved == pc.saved
  {
    assert ThreadAgrees(s, i) && ThreadAgrees(s, who);
  }

  /**
   * Leaving a bracket restores attribution: what a thread pops is what it carried when it pushed,
   * whatever it and all the others did in between.
   */
  lemma AttributionComesBack(states: seq<State>, trace: seq<(Thread, Action)>, i: Thread, k: nat, m: nat)
    requires Run(states, trace) && k < m < |trace|
    requires trace[k].0 == i && Pushes(trace[k].1) && trace[m].0 == i && Pops(trace[m].1)
    requires forall j :: k < j < m && trace[j].0 == i ==> !Pushes(trace[j].1) && !Pops(trace[j].1)
    ensures TlsOf(states[m + 1], i) == TlsOf(states[k], i)
  {
    GuardKeeps(states, trace, i, k, m);
    assert StepAt(states, trace, m);
  }

  /**
   * Admission in every run. Nested execution is granted exactly to the thread whose guest code is
   * running on that very isolate; an unlocked isolate admits any unattributed thread, so the phase
   * checks behind a successful lock never refuse; and everyone else is turned away.
   */
  lemma AdmissionIsExact(states: seq<State>, trace: seq<(Thread, Action)>, k: nat, i: Thread, a: Iso)
    requires Run(states, trace) && k < |states| && MayCall(PcOf(states[k], i))
    ensures var s, reply := states[k], Next(states[k], i, Execute(a)).1;
            && (reply == GrantedNested <==>
                  PcOf(s, i).Outer? && PcOf(s, i).a == a && PcOf(s, i).stage == Body && LockOf(s, a) == Some(i))
            && (reply == GrantedOuter <==> PcOf(s, i).Outside? && LockOf(s, a).None?)
            && (reply == IsolatePreparing <==> Bracket(PcOf(s, i)) == Some(a) && PhaseOf(s, a) == Preparing)
    ensures var s, reply := states[k], Next(states[k], i, HostOp(a, true)).1;
            && (reply == GrantedHost <==> PcOf(s, i).Outside? && LockOf(s, a).None?)
            && (reply == IsolatePreparing <==> Bracket(PcOf(s, i)) == Some(a) && PhaseOf(s, a) == Preparing)
  {
    RunInv(states, trace, k);
    var s := states[k];
    assert ThreadAgrees(s, i) && IsoAgrees(s, a);
  }
}
