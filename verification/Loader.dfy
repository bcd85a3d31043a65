/**
 * The load-once loader (sandbox.zig:539-607). One descending sweep over the topologically ordered
 * graph finds what a request needs; initializers then run in ascending order, each at most once in
 * the isolate's life.
 */
module Loader {
  import opened BigEndian
  import opened CodeDb
  import opened Results

  datatype LoadError =
    | UnknownArtifact | NotEntrypoint | NotAdmitted | ManifestMismatch | Poisoned | OutOfMemory | InvalidRite
    | ExecutionFailed

  datatype Loaded = Initialized | AlreadyLoaded | Failed(error: LoadError)

  /** What compileGraph guarantees: dependencies precede their user. */
  predicate Ordered(g: seq<GraphEntry>) {
    forall i :: 0 <= i < |g| ==> Below(g[i].dependencies, i)
  }

  predicate Below(dependencies: seq<nat>, i: nat) {
    forall d :: 0 <= d < |dependencies| ==> dependencies[d] < i
  }

  lemma CompiledIsOrdered(m: Manifest, g: seq<GraphEntry>)
    requires |g| == |m.entries| && forall i :: 0 <= i < |g| ==> Resolves(m, i, g[i])
    ensures Ordered(g)
  {
    forall i | 0 <= i < |g| ensures Below(g[i].dependencies, i) {
      assert Resolves(m, i, g[i]);
    }
  }

  /** `to` is `from` or a dependency of something `from` depends on. */
  predicate Reaches(g: seq<GraphEntry>, from: nat, to: nat)
    requires Ordered(g) && from < |g|
    decreases from
  {
    to == from || exists d :: 0 <= d < |g[from].dependencies| && DependencyReaches(g, from, d, to)
  }

  predicate DependencyReaches(g: seq<GraphEntry>, from: nat, d: nat, to: nat)
    requires Ordered(g) && from < |g| && d < |g[from].dependencies|
    decreases from, 0
  {
    assert Below(g[from].dependencies, from);
    Reaches(g, g[from].dependencies[d], to)
  }

  /** Every member's dependencies are members. */
  predicate Closed(g: seq<GraphEntry>, chosen: seq<bool>)
    requires Ordered(g) && |chosen| == |g|
  {
    forall i :: 0 <= i < |g| && chosen[i] ==> AllChosen(g[i].dependencies, chosen)
  }

  predicate AllChosen(dependencies: seq<nat>, chosen: seq<bool>) {
    forall d :: 0 <= d < |dependencies| ==> dependencies[d] < |chosen| && chosen[dependencies[d]]
  }

  lemma {:induction false} ClosedContainsReachable(g: seq<GraphEntry>, chosen: seq<bool>, from: nat, to: nat)
    requires Ordered(g) && |chosen| == |g| && Closed(g, chosen) && from < |g| && chosen[from] && Reaches(g, from, to)
    ensures to < |g| && chosen[to]
    decreases from
  {
    if to != from {
      var d :| 0 <= d < |g[from].dependencies| && DependencyReaches(g, from, d, to);
      assert Below(g[from].dependencies, from) && AllChosen(g[from].dependencies, chosen);
      ClosedContainsReachable(g, chosen, g[from].dependencies[d], to);
    }
  }

  lemma {:induction false} ReachesStep(g: seq<GraphEntry>, from: nat, mid: nat, d: nat)
    requires Ordered(g) && from < |g| && mid < |g| && Reaches(g, from, mid) && d < |g[mid].dependencies|
    ensures Reaches(g, from, g[mid].dependencies[d])
    decreases from
  {
    assert Below(g[mid].dependencies, mid);
    if mid == from {
      assert Reaches(g, g[mid].dependencies[d], g[mid].dependencies[d]);
      assert DependencyReaches(g, from, d, g[mid].dependencies[d]);
    } else {
      var e :| 0 <= e < |g[from].dependencies| && DependencyReaches(g, from, e, mid);
      assert Below(g[from].dependencies, from);
      ReachesStep(g, g[from].dependencies[e], mid, d);
      assert DependencyReaches(g, from, e, g[mid].dependencies[d]);
    }
  }

  /** The sweep: `needed` ends up as exactly the transitive dependencies of the request. */
  method Sweep(g: seq<GraphEntry>, requested: nat) returns (needed: seq<bool>)
    requires Ordered(g) && requested < |g|
    ensures |needed| == |g| && Closed(g, needed)
    ensures forall i :: 0 <= i < |g| ==> (needed[i] <==> Reaches(g, requested, i))
  {
    hide Reaches;
    var marks := new bool[|g|](_ => false);
    marks[requested] := true;
    SelfReached(g, requested);
    var reverse := requested + 1;
    while reverse != 0
      invariant reverse <= requested + 1 && marks[requested]
      invariant forall i :: 0 <= i < |g| && marks[i] ==> i <= requested && Reaches(g, requested, i)
      invariant forall i :: reverse <= i < |g| && marks[i] ==> AllChosen(g[i].dependencies, marks[..])
    {
      reverse := reverse - 1;
      if marks[reverse] {
        MarkDependencies(g, requested, reverse, marks);
      }
    }
    needed := marks[..];
    forall i | 0 <= i < |g| && Reaches(g, requested, i) ensures needed[i] {
      ClosedContainsReachable(g, needed, requested, i);
    }
  }

  lemma SelfReached(g: seq<GraphEntry>, i: nat)
    requires Ordered(g) && i < |g|
    ensures Reaches(g, i, i)
  {
  }

  method MarkDependencies(g: seq<GraphEntry>, ghost requested: nat, user: nat, marks: array<bool>)
    requires Ordered(g) && user <= requested < |g| && marks.Length == |g| && Reaches(g, requested, user)
    requires forall i :: 0 <= i < |g| && marks[i] ==> i <= requested && Reaches(g, requested, i)
    modifies marks
    ensures forall i :: 0 <= i < |g| && old(marks[i]) ==> marks[i]
    ensures forall i :: user <= i < |g| ==> marks[i] == old(marks[i])
    ensures forall i :: 0 <= i < |g| && marks[i] ==> i <= requested && Reaches(g, requested, i)
    ensures AllChosen(g[user].dependencies, marks[..])
  {
    hide Reaches;
    var dependencies := g[user].dependencies;
    assert Below(dependencies, user);
    for d := 0 to |dependencies|
      invariant forall i :: 0 <= i < |g| && old(marks[i]) ==> marks[i]
      invariant forall i :: user <= i < |g| ==> marks[i] == old(marks[i])
      invariant forall i :: 0 <= i < |g| && marks[i] ==> i <= requested && Reaches(g, requested, i)
      invariant forall e :: 0 <= e < d ==> marks[dependencies[e]]
    {
      ReachesStep(g, requested, user, d);
      marks[dependencies[d]] := true;
    }
  }

  // ---- the loader's state --------------------------------------------------------------------

  /** What lies outside the loader: artifact admission, the initializers, and the execution around them. */
  datatype Attempt = Attempt(
    admitted: bool, scratchFits: bool, tableFits: bool, riteValid: nat -> bool, preflightPasses: bool,
    initializes: nat -> bool, verdictPasses: bool)

  /** `i` is new to the history, and everything it depends on is in it. */
  predicate StartedAfter(g: seq<GraphEntry>, history: seq<nat>, i: nat) {
    && i < |g| && i !in history
    && forall d :: 0 <= d < |g[i].dependencies| ==> g[i].dependencies[d] in history
  }

  class CodeDbLoader {
    var identity: Option<nat>
    var loaded: seq<bool>
    var poisoned: bool
    /** The manifest the identity stands for, and every initializer ever started, in order. */
    ghost var graph: seq<GraphEntry>
    ghost var started: seq<nat>

    /** Each initializer started once, and only after all its dependencies had. */
    ghost predicate InOrder()
      reads this
    {
      forall p :: 0 <= p < |started| ==> StartedAfter(graph, started[..p], started[p])
    }

    /** Holds at every moment, also between the initializers of one load. */
    ghost predicate Sound()
      reads this
    {
      && Ordered(graph)
      && (identity.None? ==> graph == [] && loaded == [] && started == [] && !poisoned)
      && |loaded| == |graph| && Closed(graph, loaded)
      && (forall i :: 0 <= i < |loaded| && loaded[i] ==> i in started)
      && InOrder()
    }

    ghost predicate AllFinished()
      reads this
    {
      forall p :: 0 <= p < |started| ==> started[p] < |loaded| && loaded[started[p]]
    }

    ghost predicate Valid()
      reads this
    {
      Sound() && (!poisoned ==> AllFinished())
    }

    constructor ()
      ensures Valid() && identity.None? && !poisoned && started == []
    {
      identity, loaded, poisoned := None, [], false;
      graph, started := [], [];
    }

    /** The initializers of one load, in ascending order, stopping at the first that fails. */
    method Initialize(needed: seq<bool>, initializes: nat -> bool) returns (ok: bool)
      requires Valid() && identity.Some? && !poisoned && |needed| == |graph| && Closed(graph, needed)
      modifies this`loaded, this`started
      ensures Sound() && (ok ==> AllFinished())
      ensures ok <==> forall i :: 0 <= i < |needed| && Due(old(loaded), needed, i) ==> initializes(i)
      ensures |loaded| == |old(loaded)| && forall i :: 0 <= i < |loaded| && old(loaded)[i] ==> loaded[i]
      ensures ok ==> forall i :: 0 <= i < |loaded| ==> (loaded[i] <==> old(loaded)[i] || needed[i])
      ensures old(started) <= started && NewlyStarted(old(started), started, old(loaded), needed)
      // Ascending, and an entry is started exactly when nothing due before it failed.
      ensures Ascending(started, |old(started)|)
      ensures forall i :: 0 <= i < |needed| ==>
                (i in started[|old(started)|..] <==>
                   Due(old(loaded), needed, i)
                   && forall j :: 0 <= j < i && Due(old(loaded), needed, j) ==> initializes(j))
    {
      hide Closed, StartedAfter, Ascending, Due;
      ok := true;
      ghost var history, was := started, loaded;
      NoneStarted(history, was, needed);
      for index := 0 to |needed|
        invariant Sound() && AllFinished() && |loaded| == |was| && |loaded| == |needed|
        invariant forall i :: 0 <= i < |loaded| ==> (loaded[i] <==> was[i] || (i < index && needed[i]))
        invariant history <= started && Passed(history, started, was, needed, index, initializes)
      {
        if needed[index] && !loaded[index] {
          ghost var so := started;
          ok := InitializeOne(index, initializes(index), needed);
          OneStarted(history, so, was, needed, index, initializes);
          if !ok {
            StoppedAt(history, started, was, needed, index, initializes);
            return;
          }
        } else {
          OneSkipped(history, started, was, needed, index, initializes);
        }
      }
      PassedAll(history, started, was, needed, initializes);
    }

    /** loadIrep of one image, with the flag that records it. */
    method InitializeOne(index: nat, succeeds: bool, ghost needed: seq<bool>) returns (ok: bool)
      requires Sound() && AllFinished() && identity.Some? && |needed| == |graph| && Closed(graph, needed)
      requires index < |graph| && needed[index] && !loaded[index]
      requires forall i :: 0 <= i < index && needed[i] ==> loaded[i]
      modifies this`loaded, this`started
      ensures Sound() && ok == succeeds && started == old(started) + [index] && (ok ==> AllFinished())
      ensures loaded == if ok then old(loaded)[index := true] else old(loaded)
    {
      hide Ordered, Closed, StartedAfter;
      DependenciesLoaded(graph, needed, loaded, index);
      ReadyToStart(graph, started, loaded, index);
      HistoryGrows(graph, started, index);
      StillClosed(graph, loaded, index);
      FinishedGrows(started, loaded, index);
      ok := succeeds;
      started := started + [index];
      if ok {
        loaded := loaded[index := true];
      }
    }

    /** Admission of every artifact that would have to be initialized. */
    method RitesValid(needed: seq<bool>, riteValid: nat -> bool) returns (valid: bool)
      requires identity.Some? ==> |loaded| == |needed|
      ensures valid <==> forall i :: 0 <= i < |needed| && needed[i] && !(identity.Some? && loaded[i]) ==> riteValid(i)
    {
      for index := 0 to |needed|
        invariant forall i :: 0 <= i < index && needed[i] && !(identity.Some? && loaded[i]) ==> riteValid(i)
      {
        if needed[index] && !(identity.Some? && loaded[index]) && !riteValid(index) {
          return false;
        }
      }
      valid := true;
    }

    ghost function Now(): Standing
      reads this
    {
      Standing(identity, loaded, poisoned)
    }

    /** loadCodeDB. */
    method Load(who: nat, entries: seq<GraphEntry>, name: Bytes, attempt: Attempt) returns (result: Loaded)
      requires Valid() && Ordered(entries) && (identity == Some(who) ==> graph == entries)
      modifies this
      ensures Valid() && old(started) <= started
      // Refused before any guest execution: the loader is as it was.
      ensures (result.Failed? && result.error != ExecutionFailed) || result.AlreadyLoaded? ==>
                Now() == old(Now()) && started == old(started)
      // A poisoned loader starts nothing ever again, and a bound one serves no other manifest.
      ensures old(poisoned) ==> result.Failed? && result.error != ExecutionFailed
      ensures old(identity.Some? && identity != Some(who)) ==> result.Failed? && result.error != ExecutionFailed
      ensures poisoned == (old(poisoned) || (result.Failed? && result.error == ExecutionFailed))
      // Success: exactly the transitive dependencies of the entry were added, each started once.
      ensures !result.Failed? ==>
                && identity == Some(who) && graph == entries
                && exists r: nat :: Requested(entries, name, r) && LoadedBecomes(old(loaded), loaded, entries, r)
      // Every answer, and what is started, for exactly its own reason.
      ensures result == Failed(UnknownArtifact) <==> forall k :: 0 <= k < |entries| ==> entries[k].name != name
      ensures forall r: nat :: Requested(entries, name, r) ==>
                && Refusals(result, old(Now()), who, entries, r, attempt)
                && Endings(result, old(Now()), who, entries, r, attempt)
                && Starts(old(started), started, old(Now()), who, entries, r, attempt)
    {
      hide Closed, StartedAfter, Reaches, Ordered, Refusals, Endings, Starts, LoadedBecomes;
      ghost var before := Now();
      assert identity.None? ==> loaded == [];
      var requested := Find(entries, name);
      if requested.None? {
        return Failed(UnknownArtifact);
      }
      var r := requested.value;
      RequestIsUnique(entries, name, r);
      var answer, needed := Examine(who, entries, r, attempt);
      if answer.Some? {
        NothingRuns(answer.value, started, before, who, entries, r, attempt);
        return answer.value;
      }
      if identity.None? {
        loaded := seq(|entries|, _ => false);
        identity := Some(who);
        graph := entries;
        NoneIsClosed(graph, loaded);
      }
      result := RunInitializers(before, who, r, needed, attempt);
    }

    /** Everything loadCodeDB checks before the outer execution. */
    method Examine(who: nat, entries: seq<GraphEntry>, r: nat, attempt: Attempt)
      returns (answer: Option<Loaded>, needed: seq<bool>)
      requires Valid() && Ordered(entries) && (identity == Some(who) ==> graph == entries) && r < |entries|
      ensures answer.None? ==>
                && ReadyToRun(Now(), who, entries, r, attempt)
                && |needed| == |entries| && Closed(entries, needed)
                && forall i :: 0 <= i < |entries| ==> (needed[i] <==> Reaches(entries, r, i))
      ensures answer.Some? ==>
                && !answer.value.Initialized? && answer.value != Failed(ExecutionFailed)
                && answer.value != Failed(UnknownArtifact)
                && Refusals(answer.value, Now(), who, entries, r, attempt)
                && !ReadyToRun(Now(), who, entries, r, attempt)
                && (poisoned || (identity.Some? && identity != Some(who)) ==> answer.value.Failed?)
      ensures answer == Some(AlreadyLoaded) ==> graph == entries && LoadedBecomes(loaded, loaded, entries, r)
    {
      hide Closed, Reaches, Ordered, LoadedBecomes;
      answer, needed := None, [];
      if !entries[r].entrypoint {
        return Some(Failed(NotEntrypoint)), needed;
      }
      if !attempt.admitted {
        return Some(Failed(NotAdmitted)), needed;
      }
      if identity.Some? {
        if identity != Some(who) {
          return Some(Failed(ManifestMismatch)), needed;
        }
        if poisoned {
          return Some(Failed(Poisoned)), needed;
        }
        if loaded[r] {
          WholeClosureLoaded(graph, loaded, r);
          return Some(AlreadyLoaded), needed;
        }
      }
      if !attempt.scratchFits {
        return Some(Failed(LoadError.OutOfMemory)), needed;
      }
      needed := Sweep(entries, r);
      var valid := RitesValid(needed, attempt.riteValid);
      assert valid <==> RitesFine(Now(), entries, r, attempt);
      if !valid {
        return Some(Failed(InvalidRite)), needed;
      }
      if identity.None? && !attempt.tableFits {
        return Some(Failed(LoadError.OutOfMemory)), needed;
      }
    }

    /** The outer execution: its own checks, the initializers, and the final verdict. */
    method RunInitializers(ghost before: Standing, who: nat, ghost r: nat, needed: seq<bool>, attempt: Attempt)
      returns (result: Loaded)
      requires Valid() && identity == Some(who) && !poisoned && r < |graph| == |needed| && Closed(graph, needed)
      requires forall i :: 0 <= i < |needed| ==> (needed[i] <==> Reaches(graph, r, i))
      requires ReadyToRun(before, who, graph, r, attempt)
      requires SameFlags(before, graph, loaded)
      modifies this`loaded, this`started, this`poisoned
      ensures Valid() && old(started) <= started && poisoned == (result == Failed(ExecutionFailed))
      ensures result.Initialized? || result == Failed(ExecutionFailed)
      ensures result.Initialized? ==> LoadedBecomes(before.loaded, loaded, graph, r)
      ensures Refusals(result, before, who, graph, r, attempt) && Endings(result, before, who, graph, r, attempt)
      ensures Starts(old(started), started, before, who, graph, r, attempt)
    {
      hide Closed, Reaches, Ordered, StartedAfter, Refusals, Endings, Starts, LoadedBecomes, ReadyToRun, Wanted, Due;
      result := Failed(ExecutionFailed);
      ghost var was, history := loaded, started;
      DueIsWanted(before, graph, r, was, needed);
      var ok := false;
      if attempt.preflightPasses {
        ok := Initialize(needed, attempt.initializes);
        RanUpToFailure(history, started, before, who, graph, r, attempt, was, needed);
      } else {
        NothingBegins(started, before, who, graph, r, attempt);
      }
      if ok && attempt.verdictPasses {
        result := Initialized;
        ClosureLoaded(before, graph, r, was, needed, loaded);
      } else {
        poisoned := true;
      }
      RunDecides(result, ok, before, who, graph, r, attempt, was, needed);
    }
  }

  // ---- the answers ---------------------------------------------------------------------------

  /** What the loader remembers between calls. */
  datatype Standing = Standing(identity: Option<nat>, loaded: seq<bool>, poisoned: bool)

  /** A dependency of the request that is not loaded yet. */
  predicate Wanted(b: Standing, entries: seq<GraphEntry>, r: nat, i: nat)
    requires Ordered(entries) && r < |entries|
  {
    i < |entries| && Reaches(entries, r, i) && !(i < |b.loaded| && b.loaded[i])
  }

  predicate RitesFine(b: Standing, entries: seq<GraphEntry>, r: nat, attempt: Attempt)
    requires Ordered(entries) && r < |entries|
  {
    forall i :: 0 <= i < |entries| && Wanted(b, entries, r, i) ==> attempt.riteValid(i)
  }

  /** The request is for an entry point, admitted, and of the manifest this loader serves. */
  predicate Served(b: Standing, who: nat, entries: seq<GraphEntry>, r: nat, attempt: Attempt)
    requires r < |entries|
  {
    entries[r].entrypoint && attempt.admitted && (b.identity.None? || (b.identity == Some(who) && !b.poisoned))
  }

  predicate ReadyToRun(b: Standing, who: nat, entries: seq<GraphEntry>, r: nat, attempt: Attempt)
    requires Ordered(entries) && r < |entries|
  {
    && Served(b, who, entries, r, attempt) && !(r < |b.loaded| && b.loaded[r])
    && attempt.scratchFits && RitesFine(b, entries, r, attempt) && (b.identity.None? ==> attempt.tableFits)
  }

  /** Each answer before any guest execution is given exactly for its own reason. */
  predicate Refusals(
    result: Loaded, b: Standing, who: nat, entries: seq<GraphEntry>, r: nat, attempt: Attempt)
    requires Ordered(entries) && r < |entries|
  {
    var entry, served, known :=
      entries[r].entrypoint, Served(b, who, entries, r, attempt), r < |b.loaded| && b.loaded[r];
    && (result == Failed(NotEntrypoint) <==> !entry)
    && (result == Failed(NotAdmitted) <==> entry && !attempt.admitted)
    && (result == Failed(ManifestMismatch) <==>
          entry && attempt.admitted && b.identity.Some? && b.identity != Some(who))
    && (result == Failed(Poisoned) <==> entry && attempt.admitted && b.identity == Some(who) && b.poisoned)
    && (result == AlreadyLoaded <==> served && known)
    && (result == Failed(InvalidRite) <==>
          served && !known && attempt.scratchFits && !RitesFine(b, entries, r, attempt))
    && (result == Failed(LoadError.OutOfMemory) <==>
          && served && !known
          && (!attempt.scratchFits
              || (RitesFine(b, entries, r, attempt) && b.identity.None? && !attempt.tableFits)))
  }

  /** An execution that takes place succeeds exactly when nothing in it fails. */
  predicate Endings(
    result: Loaded, b: Standing, who: nat, entries: seq<GraphEntry>, r: nat, attempt: Attempt)
    requires Ordered(entries) && r < |entries|
  {
    var passes := attempt.preflightPasses && attempt.verdictPasses
                  && forall i :: 0 <= i < |entries| && Wanted(b, entries, r, i) ==> attempt.initializes(i);
    && (result == Initialized <==> ReadyToRun(b, who, entries, r, attempt) && passes)
    && (result == Failed(ExecutionFailed) <==> ReadyToRun(b, who, entries, r, attempt) && !passes)
  }

  /** What is started: in ascending order, every wanted entry up to the first that fails. */
  ghost predicate Starts(
    before: seq<nat>, after: seq<nat>, b: Standing, who: nat, entries: seq<GraphEntry>, r: nat, attempt: Attempt)
    requires Ordered(entries) && r < |entries|
  {
    && before <= after && Ascending(after, |before|)
    && forall i: nat ::
         (i in after[|before|..] <==>
            && ReadyToRun(b, who, entries, r, attempt) && attempt.preflightPasses && Wanted(b, entries, r, i)
            && forall j :: 0 <= j < i && Wanted(b, entries, r, j) ==> attempt.initializes(j))
  }

  lemma NothingRuns(
    result: Loaded, history: seq<nat>, b: Standing, who: nat, entries: seq<GraphEntry>, r: nat, attempt: Attempt)
    requires Ordered(entries) && r < |entries| && !ReadyToRun(b, who, entries, r, attempt)
    requires !result.Initialized? && result != Failed(ExecutionFailed)
    ensures Endings(result, b, who, entries, r, attempt) && Starts(history, history, b, who, entries, r, attempt)
  {
    hide ReadyToRun, Wanted;
    assert history[|history|..] == [];
  }

  lemma NothingBegins(
    history: seq<nat>, b: Standing, who: nat, entries: seq<GraphEntry>, r: nat, attempt: Attempt)
    requires Ordered(entries) && r < |entries| && !attempt.preflightPasses
    ensures Starts(history, history, b, who, entries, r, attempt)
  {
    hide ReadyToRun, Wanted;
    assert history[|history|..] == [];
  }

  lemma DueIsWanted(b: Standing, g: seq<GraphEntry>, r: nat, was: seq<bool>, needed: seq<bool>)
    requires Ordered(g) && r < |g| == |needed| && SameFlags(b, g, was)
    requires forall i :: 0 <= i < |needed| ==> (needed[i] <==> Reaches(g, r, i))
    ensures forall i: nat :: Due(was, needed, i) <==> Wanted(b, g, r, i)
  {
    hide Reaches;
  }

  /** The flags an execution starts from: those of before, or all clear when the loader was unbound. */
  predicate SameFlags(b: Standing, g: seq<GraphEntry>, was: seq<bool>) {
    |was| == |g| && forall i :: 0 <= i < |g| ==> (was[i] <==> i < |b.loaded| && b.loaded[i])
  }

  lemma RanUpToFailure(
    history: seq<nat>, started: seq<nat>, b: Standing, who: nat, g: seq<GraphEntry>, r: nat, attempt: Attempt,
    was: seq<bool>, needed: seq<bool>)
    requires Ordered(g) && r < |g| == |needed| == |was| && ReadyToRun(b, who, g, r, attempt) && attempt.preflightPasses
    requires forall i: nat :: Due(was, needed, i) <==> Wanted(b, g, r, i)
    requires history <= started && NewlyStarted(history, started, was, needed) && Ascending(started, |history|)
    requires forall i :: 0 <= i < |needed| ==>
               (i in started[|history|..] <==>
                  Due(was, needed, i) && forall j :: 0 <= j < i && Due(was, needed, j) ==> attempt.initializes(j))
    ensures Starts(history, started, b, who, g, r, attempt)
  {
    hide ReadyToRun, Wanted, Ascending;
    forall i: nat | i in started[|history|..] ensures i < |needed| {
      var p :| |history| <= p < |started| && started[p] == i;
    }
  }

  lemma ClosureLoaded(
    b: Standing, g: seq<GraphEntry>, r: nat, was: seq<bool>, needed: seq<bool>, loaded: seq<bool>)
    requires Ordered(g) && r < |g| == |needed| == |loaded| && SameFlags(b, g, was)
    requires forall i :: 0 <= i < |needed| ==> (needed[i] <==> Reaches(g, r, i))
    requires forall i :: 0 <= i < |loaded| ==> (loaded[i] <==> was[i] || needed[i])
    ensures LoadedBecomes(b.loaded, loaded, g, r)
  {
    hide Reaches;
  }

  lemma RunDecides(
    result: Loaded, ok: bool, b: Standing, who: nat, g: seq<GraphEntry>, r: nat, attempt: Attempt,
    was: seq<bool>, needed: seq<bool>)
    requires Ordered(g) && r < |g| == |needed| && ReadyToRun(b, who, g, r, attempt)
    requires forall i: nat :: Due(was, needed, i) <==> Wanted(b, g, r, i)
    requires attempt.preflightPasses ==>
               (ok <==> forall i :: 0 <= i < |needed| && Due(was, needed, i) ==> attempt.initializes(i))
    requires !attempt.preflightPasses ==> !ok
    requires result == if ok && attempt.verdictPasses then Initialized else Failed(ExecutionFailed)
    ensures Refusals(result, b, who, g, r, attempt) && Endings(result, b, who, g, r, attempt)
  {
    hide Wanted;
  }

  lemma RequestIsUnique(entries: seq<GraphEntry>, name: Bytes, r: nat)
    requires Requested(entries, name, r)
    ensures forall k: nat :: Requested(entries, name, k) ==> k == r
  {
  }

  /** Only needed, not yet loaded entries were started. */
  ghost predicate NewlyStarted(before: seq<nat>, after: seq<nat>, loaded: seq<bool>, needed: seq<bool>)
    requires |loaded| == |needed|
  {
    forall p :: |before| <= p < |after| ==> after[p] < |needed| && needed[after[p]] && !loaded[after[p]]
  }

  /** Needed, and not loaded before. */
  predicate Due(before: seq<bool>, needed: seq<bool>, i: nat) {
    i < |needed| && needed[i] && !(i < |before| && before[i])
  }

  /** The entries started from position `from` on come in ascending order. */
  predicate Ascending(started: seq<nat>, from: nat) {
    forall p, q :: from <= p < q < |started| ==> started[p] < started[q]
  }

  /** The pass up to `index`, without a failure: what was due has been started and initialized. */
  ghost predicate Passed(
    history: seq<nat>, started: seq<nat>, was: seq<bool>, needed: seq<bool>, index: nat, initializes: nat -> bool)
  {
    && |history| <= |started| && Ascending(started, |history|)
    && (forall p :: |history| <= p < |started| ==> started[p] < index && Due(was, needed, started[p]))
    && forall i :: 0 <= i < index && Due(was, needed, i) ==> initializes(i) && i in started[|history|..]
  }

  /** The same with entry `index` started last, whether or not it succeeds. */
  ghost predicate Reached(
    history: seq<nat>, started: seq<nat>, was: seq<bool>, needed: seq<bool>, index: nat, initializes: nat -> bool)
  {
    && |history| <= |started| && Ascending(started, |history|) && Due(was, needed, index)
    && (forall p :: |history| <= p < |started| ==> started[p] <= index && Due(was, needed, started[p]))
    && index in started[|history|..]
    && forall i :: 0 <= i < index && Due(was, needed, i) ==> initializes(i) && i in started[|history|..]
  }

  lemma NoneStarted(history: seq<nat>, was: seq<bool>, needed: seq<bool>)
    ensures forall initializes: nat -> bool :: Passed(history, history, was, needed, 0, initializes)
  {
  }

  lemma OneStarted(
    history: seq<nat>, so: seq<nat>, was: seq<bool>, needed: seq<bool>, index: nat, initializes: nat -> bool)
    requires Passed(history, so, was, needed, index, initializes) && history <= so
    requires index < |needed| && needed[index] && !(index < |was| && was[index])
    ensures Reached(history, so + [index], was, needed, index, initializes)
    ensures initializes(index) ==> Passed(history, so + [index], was, needed, index + 1, initializes)
  {
    var started := so + [index];
    assert started[|history|..] == so[|history|..] + [index];
    hide Due;
    assert Due(was, needed, index) by {
      IsDue(was, needed, index);
    }
  }

  lemma IsDue(was: seq<bool>, needed: seq<bool>, index: nat)
    requires index < |needed| && needed[index] && !(index < |was| && was[index])
    ensures Due(was, needed, index)
  {
  }

  lemma OneSkipped(
    history: seq<nat>, started: seq<nat>, was: seq<bool>, needed: seq<bool>, index: nat, initializes: nat -> bool)
    requires Passed(history, started, was, needed, index, initializes)
    requires index < |needed| == |was| && (!needed[index] || was[index])
    ensures Passed(history, started, was, needed, index + 1, initializes)
  {
  }

  /** What a pass that stops at `index` has started. */
  lemma StoppedAt(
    history: seq<nat>, started: seq<nat>, was: seq<bool>, needed: seq<bool>, index: nat, initializes: nat -> bool)
    requires Reached(history, started, was, needed, index, initializes) && !initializes(index) && index < |needed|
    requires |was| == |needed|
    ensures NewlyStarted(history, started, was, needed) && Ascending(started, |history|)
    ensures !(forall i :: 0 <= i < |needed| && Due(was, needed, i) ==> initializes(i))
    ensures forall i :: 0 <= i < |needed| ==>
              (i in started[|history|..] <==>
                 Due(was, needed, i) && forall j :: 0 <= j < i && Due(was, needed, j) ==> initializes(j))
  {
    NewAreDue(history, started, was, needed);
    hide Ascending, Due, NewlyStarted;
    forall i | 0 <= i < |needed|
      ensures i in started[|history|..] <==>
              Due(was, needed, i) && forall j :: 0 <= j < i && Due(was, needed, j) ==> initializes(j)
    {
      if i in started[|history|..] {
        var p :| |history| <= p < |started| && started[p] == i;
      }
    }
  }

  lemma NewAreDue(history: seq<nat>, started: seq<nat>, was: seq<bool>, needed: seq<bool>)
    requires |was| == |needed| && forall p :: |history| <= p < |started| ==> Due(was, needed, started[p])
    ensures NewlyStarted(history, started, was, needed)
  {
    forall p | |history| <= p < |started|
      ensures started[p] < |needed| && needed[started[p]] && !was[started[p]]
    {
      assert Due(was, needed, started[p]);
    }
  }

  /** What a pass without a failure has started. */
  lemma PassedAll(
    history: seq<nat>, started: seq<nat>, was: seq<bool>, needed: seq<bool>, initializes: nat -> bool)
    requires Passed(history, started, was, needed, |needed|, initializes) && |was| == |needed|
    ensures NewlyStarted(history, started, was, needed) && Ascending(started, |history|)
    ensures forall i :: 0 <= i < |needed| && Due(was, needed, i) ==> initializes(i)
    ensures forall i :: 0 <= i < |needed| ==>
              (i in started[|history|..] <==>
                 Due(was, needed, i) && forall j :: 0 <= j < i && Due(was, needed, j) ==> initializes(j))
  {
    NewAreDue(history, started, was, needed);
    hide Ascending, Due, NewlyStarted;
    forall i | 0 <= i < |needed|
      ensures i in started[|history|..] <==>
              Due(was, needed, i) && forall j :: 0 <= j < i && Due(was, needed, j) ==> initializes(j)
    {
      if i in started[|history|..] {
        var p :| |history| <= p < |started| && started[p] == i;
      }
    }
  }

  /** At its turn in the ascending pass, an entry's dependencies are loaded. */
  lemma DependenciesLoaded(g: seq<GraphEntry>, needed: seq<bool>, loaded: seq<bool>, index: nat)
    requires Ordered(g) && |needed| == |g| == |loaded| && Closed(g, needed) && index < |g| && needed[index]
    requires forall i :: 0 <= i < index && needed[i] ==> loaded[i]
    ensures AllChosen(g[index].dependencies, loaded)
  {
    assert AllChosen(g[index].dependencies, needed) && Below(g[index].dependencies, index);
  }

  lemma StillClosed(g: seq<GraphEntry>, loaded: seq<bool>, index: nat)
    requires Ordered(g) && |loaded| == |g| && Closed(g, loaded) && index < |g|
             && AllChosen(g[index].dependencies, loaded)
    ensures Closed(g, loaded[index := true])
  {
    forall i | 0 <= i < |g| && loaded[index := true][i] ensures AllChosen(g[i].dependencies, loaded[index := true]) {
      assert AllChosen(g[i].dependencies, loaded);
    }
  }

  lemma ReadyToStart(g: seq<GraphEntry>, history: seq<nat>, loaded: seq<bool>, index: nat)
    requires index < |g| == |loaded| && !loaded[index] && AllChosen(g[index].dependencies, loaded)
    requires forall i :: 0 <= i < |loaded| && loaded[i] ==> i in history
    requires forall p :: 0 <= p < |history| ==> history[p] < |loaded| && loaded[history[p]]
    ensures StartedAfter(g, history, index)
  {
  }

  lemma HistoryGrows(g: seq<GraphEntry>, history: seq<nat>, index: nat)
    requires StartedAfter(g, history, index)
    requires forall p :: 0 <= p < |history| ==> StartedAfter(g, history[..p], history[p])
    ensures forall p :: 0 <= p <= |history| ==> StartedAfter(g, (history + [index])[..p], (history + [index])[p])
  {
    hide StartedAfter;
    var longer := history + [index];
    forall p | 0 <= p <= |history| ensures StartedAfter(g, longer[..p], longer[p]) {
      assert longer[..p] == history[..p];
      assert p == |history| ==> history[..p] == history;
    }
  }

  lemma FinishedGrows(history: seq<nat>, loaded: seq<bool>, index: nat)
    requires index < |loaded| && forall p :: 0 <= p < |history| ==> history[p] < |loaded| && loaded[history[p]]
    ensures forall p :: 0 <= p <= |history| ==>
              (history + [index])[p] < |loaded| && loaded[index := true][(history + [index])[p]]
  {
  }

  lemma NoneIsClosed(g: seq<GraphEntry>, loaded: seq<bool>)
    requires Ordered(g) && |loaded| == |g| && forall i :: 0 <= i < |g| ==> !loaded[i]
    ensures Closed(g, loaded)
  {
  }

  lemma WholeClosureLoaded(g: seq<GraphEntry>, loaded: seq<bool>, r: nat)
    requires Ordered(g) && |loaded| == |g| && Closed(g, loaded) && r < |g| && loaded[r]
    ensures LoadedBecomes(loaded, loaded, g, r)
  {
    forall i | 0 <= i < |g| && Reaches(g, r, i) ensures loaded[i] {
      ClosedContainsReachable(g, loaded, r, i);
    }
  }

  predicate Requested(entries: seq<GraphEntry>, name: Bytes, r: nat) {
    r < |entries| && entries[r].name == name && forall k :: 0 <= k < r ==> entries[k].name != name
  }

  /** After a successful load: what was loaded before, and the closure of the request. */
  ghost predicate LoadedBecomes(before: seq<bool>, after: seq<bool>, g: seq<GraphEntry>, r: nat)
    requires Ordered(g)
  {
    && r < |g| == |after|
    && forall i :: 0 <= i < |g| ==> (after[i] <==> (i < |before| && before[i]) || Reaches(g, r, i))
  }

  method Find(entries: seq<GraphEntry>, name: Bytes) returns (found: Option<nat>)
    ensures found.Some? ==> Requested(entries, name, found.value)
    ensures found.None? ==> forall k :: 0 <= k < |entries| ==> entries[k].name != name
  {
    for k := 0 to |entries|
      invariant forall j :: 0 <= j < k ==> entries[j].name != name
    {
      if entries[k].name == name {
        return Some(k);
      }
    }
    found := None;
  }
}
