/**
 * Owner tokens under concurrency (alloc.zig:161-283 and 376-448): any number of threads inside
 * mrb_basic_alloc_func, interleaved between lock sections, with cells retired at any time. The
 * invariant accounts for every reference, so a token is destroyed once and never while it is named.
 */
module OwnerTokens {
  import opened BigEndian
  import opened Ledger
  import opened Results

  type Token = nat
  type Address = nat
  type Thread = nat

  /** Where a thread is inside mrb_basic_alloc_func, between lock sections. */
  datatype Pc =
    | Outside
      // Owner chosen, `prepare` not yet run.
    | Chosen(p: Option<Address>, token: Token, acquire: bool)
      // Accepted; with `acquired`, the thread carries a reference no header owns yet.
    | Prepared(p: Option<Address>, owner: Option<Token>, acquired: bool)
      // New header written, its cell not yet charged.
    | Written(q: Address, token: Token)
      // A reference to drop: the freed block's, or the uncommitted one.
    | Dropping(token: Token)

  datatype Cell = Live | Retired

  /**
   * `refs` holds the tokens that still exist. `blocks` maps a live block to the owner its header
   * names. `fault` is raised by a lock section on a token that is gone, or a count below zero.
   */
  datatype State = State(
    refs: map<Token, nat>,
    cells: map<Token, Cell>,
    blocks: map<Address, Option<Token>>,
    threads: map<Thread, Pc>,
    destroyed: multiset<Token>,
    fault: bool)

  datatype Action =
    | InitOwnership(t: Token)
    | Retire(t: Token)
    | Enter(i: Thread, p: Option<Address>, size: nat, current: Option<Token>)
    | Prepare(i: Thread, accept: bool)
    | Backing(i: Thread, q: Option<Address>)
    | Account(i: Thread)
    | Release(i: Thread)

  function PcOf(s: State, i: Thread): Pc {
    if i in s.threads then s.threads[i] else Outside
  }

  function HeaderOwner(s: State, p: Option<Address>): Option<Token> {
    if p.Some? && p.value in s.blocks then s.blocks[p.value] else None
  }

  /** The block a thread is working on: no one else may be handed it meanwhile. */
  function Claim(pc: Pc): Option<Address> {
    match pc
    case Chosen(p, _, _) => p
    case Prepared(p, _, _) => p
    case Written(q, _) => Some(q)
    case _ => None
  }

  predicate Unclaimed(s: State, a: Address) {
    forall i :: i in s.threads ==> Claim(s.threads[i]) != Some(a)
  }

  /** A thread between choosing its cell's token and `prepare` relies on that cell not being retired. */
  predicate Relies(pc: Pc, t: Token) {
    pc.Chosen? && pc.token == t && pc.acquire
  }

  predicate IsLive(s: State, t: Token) {
    t in s.cells && s.cells[t] == Live
  }

  /** What the callers of the allocator keep to; everything else may happen in any order. */
  predicate Enabled(s: State, a: Action) {
    match a
    case InitOwnership(t) => t !in s.cells && t !in s.refs && t !in s.destroyed
    case Retire(t) => IsLive(s, t) && forall i :: i in s.threads ==> !Relies(s.threads[i], t)
    case Enter(i, p, _, current) =>
      && PcOf(s, i).Outside? && (p.Some? ==> p.value in s.blocks && Unclaimed(s, p.value))
      && (current.Some? ==> IsLive(s, current.value))
    case Prepare(i, _) => PcOf(s, i).Chosen?
    case Backing(i, q) =>
      PcOf(s, i).Prepared? && (q.Some? ==> q == PcOf(s, i).p || q.value !in s.blocks)
    case Account(i) => PcOf(s, i).Written?
    case Release(i) => PcOf(s, i).Dropping?
  }

  /** A lock section on `t`: reading a destroyed token would be a use after free. */
  function Locked(s: State, t: Token): State {
    if t in s.refs then s else s.(fault := true)
  }

  /** `refs -= 1`, and the destruction that follows when it reaches zero. */
  function Drop(s: State, t: Token): State {
    if t !in s.refs || s.refs[t] == 0 then s.(fault := true)
    else if s.refs[t] == 1 then s.(refs := s.refs - {t}, destroyed := s.destroyed + multiset{t})
    else s.(refs := s.refs[t := s.refs[t] - 1])
  }

  /** What a step does to the tokens. */
  function Tokens(s: State, a: Action): State
    requires Enabled(s, a)
  {
    match a
    case InitOwnership(t) => s.(refs := s.refs[t := 1])
    case Retire(t) => Drop(Locked(s, t), t)
    case Prepare(i, accept) =>
      var pc := PcOf(s, i);
      if accept && pc.acquire && pc.token in s.refs then s.(refs := s.refs[pc.token := s.refs[pc.token] + 1])
      else Locked(s, pc.token)
    case Account(i) => Locked(s, PcOf(s, i).token)
    case Release(i) => Drop(Locked(s, PcOf(s, i).token), PcOf(s, i).token)
    case _ => s
  }

  function NextCells(s: State, a: Action): map<Token, Cell> {
    match a
    case InitOwnership(t) => s.cells[t := Live]
    case Retire(t) => s.cells[t := Retired]
    case _ => s.cells
  }

  /** rawFree on the way in, and a new header once the backing allocator has answered. */
  function NextBlocks(s: State, a: Action): map<Address, Option<Token>>
    requires Enabled(s, a)
  {
    match a
    case Enter(i, p, size, _) => if size == 0 && p.Some? then s.blocks - {p.value} else s.blocks
    case Backing(i, q) =>
      var pc := PcOf(s, i);
      if q.None? then s.blocks
      else (if pc.p.Some? then s.blocks - {pc.p.value} else s.blocks)[q.value := pc.owner]
    case _ => s.blocks
  }

  /** Where an acting thread goes next. */
  function NextPc(s: State, a: Action): Pc
    requires Enabled(s, a)
  {
    match a
    case Enter(i, p, size, current) =>
      var header := HeaderOwner(s, p);
      if size == 0 then (if header.Some? then Dropping(header.value) else Outside)
      else if size + HEADER_BYTES >= U64 then Outside
      else
        var owner := if header.Some? then header else current;
        if owner.Some? then Chosen(p, owner.value, header.None?) else Prepared(p, None, false)
    case Prepare(i, accept) =>
      var pc := PcOf(s, i);
      if accept then Prepared(pc.p, Some(pc.token), pc.acquire) else Outside
    case Backing(i, q) =>
      var pc := PcOf(s, i);
      if q.None? then (if pc.acquired && pc.owner.Some? then Dropping(pc.owner.value) else Outside)
      else if pc.owner.Some? then Written(q.value, pc.owner.value) else Outside
    case _ => Outside
  }

  function Actor(a: Action): Option<Thread> {
    match a
    case InitOwnership(_) => None
    case Retire(_) => None
    case Enter(i, _, _, _) => Some(i)
    case Prepare(i, _) => Some(i)
    case Backing(i, _) => Some(i)
    case Account(i) => Some(i)
    case Release(i) => Some(i)
  }

  function Apply(s: State, a: Action): State
    requires Enabled(s, a)
  {
    var threads := if Actor(a).Some? then s.threads[Actor(a).value := NextPc(s, a)] else s.threads;
    Tokens(s, a).(cells := NextCells(s, a), blocks := NextBlocks(s, a), threads := threads)
  }

  const EMPTY := State(map[], map[], map[], map[], multiset{}, false)

  ghost predicate StepAt(states: seq<State>, trace: seq<Action>, k: nat)
    requires |states| == |trace| + 1 && k < |trace|
  {
    Enabled(states[k], trace[k]) && states[k + 1] == Apply(states[k], trace[k])
  }

  /** Every interleaving: any finite sequence of enabled actions from the empty state. */
  ghost predicate Run(states: seq<State>, trace: seq<Action>) {
    && |states| == |trace| + 1 && states[0] == EMPTY
    && forall k :: 0 <= k < |trace| ==> StepAt(states, trace, k)
  }

  // ---- who holds a reference -----------------------------------------------------------------

  /** The reference a thread carries outside any header. */
  function Carried(pc: Pc): Option<Token> {
    match pc
    case Prepared(_, owner, true) => owner
    case Dropping(t) => Some(t)
    case _ => None
  }

  ghost function Naming(blocks: map<Address, Option<Token>>, t: Token): set<Address> {
    set a | a in blocks && blocks[a] == Some(t)
  }

  ghost function Headers(s: State, t: Token): set<Address> {
    Naming(s.blocks, t)
  }

  ghost function Carrying(threads: map<Thread, Pc>, t: Token): set<Thread> {
    set i | i in threads && Carried(threads[i]) == Some(t)
  }

  ghost function Carriers(s: State, t: Token): set<Thread> {
    Carrying(s.threads, t)
  }

  /** One for an unretired cell, one per live header, one per acquired but uncommitted reference. */
  ghost function Owed(s: State, t: Token): nat {
    (if IsLive(s, t) then 1 else 0) + |Headers(s, t)| + |Carriers(s, t)|
  }

  /** A thread in the middle of a call still finds its block as it left it. */
  predicate ClaimKept(s: State, pc: Pc) {
    match pc
    case Chosen(p, owner, acquire) =>
      && (p.Some? ==> p.value in s.blocks)
      && (if acquire then HeaderOwner(s, p).None? && IsLive(s, owner) else HeaderOwner(s, p) == Some(owner))
    case Prepared(p, owner, acquired) =>
      && (p.Some? ==> p.value in s.blocks)
      && (acquired ==> owner.Some?) && HeaderOwner(s, p) == (if acquired then None else owner)
    case Written(q, owner) => q in s.blocks && s.blocks[q] == Some(owner)
    case _ => true
  }

  ghost predicate ClaimsApart(s: State) {
    forall i, j :: i in s.threads && j in s.threads && i != j && Claim(s.threads[i]).Some? ==>
      Claim(s.threads[i]) != Claim(s.threads[j])
  }

  /** An existing token counts exactly what it is owed; one that is gone is owed nothing and went once. */
  ghost predicate Counted(s: State, t: Token) {
    if t in s.refs then s.refs[t] == Owed(s, t) > 0 && s.destroyed[t] == 0
    else Owed(s, t) == 0 && s.destroyed[t] == (if t in s.cells then 1 else 0)
  }

  ghost predicate Inv(s: State) {
    && !s.fault
    && (forall t :: Counted(s, t))
    && (forall t :: t in s.refs ==> t in s.cells)
    && (forall i :: i in s.threads ==> ClaimKept(s, s.threads[i]))
    && ClaimsApart(s)
  }

  // ---- one step ------------------------------------------------------------------------------

  lemma CarryingMoved(threads: map<Thread, Pc>, i: Thread, pc: Pc, t: Token)
    ensures Carrying(threads[i := pc], t) == Carrying(threads, t) - {i} + (if Carried(pc) == Some(t) then {i} else {})
  {
  }

  lemma CarryingMember(s: State, i: Thread, t: Token)
    ensures i in Carriers(s, t) <==> Carried(PcOf(s, i)) == Some(t)
  {
  }

  /** Moving thread `i` changes what it carries and nothing else about the carriers. */
  lemma CarriersCount(s: State, s': State, i: Thread, pc: Pc, t: Token)
    requires s'.threads == s.threads[i := pc]
    ensures |Carriers(s', t)| ==
            |Carriers(s, t)| - (if Carried(PcOf(s, i)) == Some(t) then 1 else 0)
            + (if Carried(pc) == Some(t) then 1 else 0)
  {
    hide Carrying, Carried, PcOf;
    CarryingMoved(s.threads, i, pc, t);
    CarryingMember(s, i, t);
    SwapCount(Carriers(s, t), i, Carried(pc) == Some(t));
  }

  lemma SwapCount(members: set<Thread>, i: Thread, stays: bool)
    ensures |members - {i} + (if stays then {i} else {})| == |members| - (if i in members then 1 else 0)
            + (if stays then 1 else 0)
  {
    var rest := members - {i};
    assert members == if i in members then rest + {i} else rest;
  }

  lemma HeaderRemoved(blocks: map<Address, Option<Token>>, a: Address, t: Token)
    requires a in blocks
    ensures |Naming(blocks - {a}, t)| == |Naming(blocks, t)| - (if blocks[a] == Some(t) then 1 else 0)
  {
    var rest := blocks - {a};
    if blocks[a] == Some(t) {
      assert Naming(blocks, t) == Naming(rest, t) + {a};
    } else {
      assert Naming(blocks, t) == Naming(rest, t);
    }
  }

  lemma HeaderAdded(blocks: map<Address, Option<Token>>, a: Address, owner: Option<Token>, t: Token)
    requires a !in blocks
    ensures |Naming(blocks[a := owner], t)| == |Naming(blocks, t)| + (if owner == Some(t) then 1 else 0)
  {
    assert blocks[a := owner] - {a} == blocks;
    HeaderRemoved(blocks[a := owner], a, t);
  }

  /** A lock section on a token with a holder finds it. */
  lemma Found(s: State, t: Token)
    requires Inv(s) && Owed(s, t) > 0
    ensures t in s.refs
  {
    assert Counted(s, t);
  }

  lemma HeaderNamesIt(s: State, a: Address)
    requires a in s.blocks && s.blocks[a].Some?
    ensures |Headers(s, s.blocks[a].value)| > 0
  {
    assert a in Headers(s, s.blocks[a].value);
  }

  lemma ThreadCarriesIt(s: State, i: Thread)
    requires i in s.threads && Carried(s.threads[i]).Some?
    ensures |Carriers(s, Carried(s.threads[i]).value)| > 0
  {
    assert i in Carriers(s, Carried(s.threads[i]).value);
  }

  /** The token a lock section works on, for the actions that take one. */
  function Touched(s: State, a: Action): Option<Token> {
    match a
    case Retire(t) => Some(t)
    case Prepare(i, _) => if PcOf(s, i).Chosen? then Some(PcOf(s, i).token) else None
    case Account(i) => if PcOf(s, i).Written? then Some(PcOf(s, i).token) else None
    case Release(i) => if PcOf(s, i).Dropping? then Some(PcOf(s, i).token) else None
    case _ => None
  }

  /** No use after free: every lock section works on a token that still exists. */
  lemma TouchedExists(s: State, a: Action)
    requires Inv(s) && Enabled(s, a) && Touched(s, a).Some?
    ensures Touched(s, a).value in s.refs
  {
    var t := Touched(s, a).value;
    match a {
      case Retire(_) =>
      case Prepare(i, _) =>
        assert ClaimKept(s, s.threads[i]);
        if !s.threads[i].acquire {
          HeaderNamesIt(s, s.threads[i].p.value);
        }
      case Account(i) =>
        assert ClaimKept(s, s.threads[i]);
        HeaderNamesIt(s, s.threads[i].q);
      case Release(i) => ThreadCarriesIt(s, i);
    }
    Found(s, t);
  }

  /** The books after any one step. */
  lemma CountKept(s: State, a: Action, t: Token)
    requires Inv(s) && Enabled(s, a)
    ensures Counted(Apply(s, a), t)
  {
    hide Naming, Carrying, ClaimsApart;
    var s' := Apply(s, a);
    assert Counted(s, t);
    if Touched(s, a).Some? {
      TouchedExists(s, a);
      assert Counted(s, Touched(s, a).value);
    }
    match a {
      case InitOwnership(_) =>
        assert Headers(s', t) == Headers(s, t) && Carriers(s', t) == Carriers(s, t);
      case Retire(_) =>
        assert Headers(s', t) == Headers(s, t) && Carriers(s', t) == Carriers(s, t);
      case Enter(i, p, size, current) => EnterCounts(s, i, p, size, current, t);
      case Prepare(i, accept) =>
        assert ClaimKept(s, s.threads[i]);
        CarriersCount(s, s', i, s'.threads[i], t);
      case Backing(i, q) => BackingCounts(s, i, q, t);
      case Account(i) => CarriersCount(s, s', i, Outside, t);
      case Release(i) => CarriersCount(s, s', i, Outside, t);
    }
  }

  lemma EnterCounts(s: State, i: Thread, p: Option<Address>, size: nat, current: Option<Token>, t: Token)
    requires Inv(s) && Enabled(s, Enter(i, p, size, current))
    ensures Counted(Apply(s, Enter(i, p, size, current)), t)
  {
    hide Naming, Carrying, ClaimsApart;
    var s' := Apply(s, Enter(i, p, size, current));
    assert Counted(s, t);
    if size == 0 && p.Some? {
      HeaderRemoved(s.blocks, p.value, t);
    }
    if s'.threads == s.threads {
      assert Carriers(s', t) == Carriers(s, t);
    } else {
      CarriersCount(s, s', i, s'.threads[i], t);
    }
  }

  lemma BackingCounts(s: State, i: Thread, q: Option<Address>, t: Token)
    requires Inv(s) && Enabled(s, Backing(i, q))
    ensures Counted(Apply(s, Backing(i, q)), t)
  {
    hide Naming, Carrying, ClaimsApart;
    var s' := Apply(s, Backing(i, q));
    assert Counted(s, t);
    var pc := s.threads[i];
    assert ClaimKept(s, pc);
    CarriersCount(s, s', i, s'.threads[i], t);
    if q.Some? {
      var rest := if pc.p.Some? then s.blocks - {pc.p.value} else s.blocks;
      if pc.p.Some? {
        HeaderRemoved(s.blocks, pc.p.value, t);
      }
      HeaderAdded(rest, q.value, pc.owner, t);
    }
  }

  /** A thread that does not act finds its block as it left it. */
  lemma BystanderKept(s: State, a: Action, j: Thread)
    requires Inv(s) && Enabled(s, a) && j in s.threads && Actor(a) != Some(j)
    ensures ClaimKept(Apply(s, a), s.threads[j])
  {
    hide Counted, Tokens, NextPc;
    assert ClaimKept(s, s.threads[j]);
    match a {
      case Enter(i, p, _, _) =>
        assert p.Some? ==> Claim(s.threads[j]) != p;
      case Backing(i, q) =>
        assert ClaimKept(s, s.threads[i]);
        assert Claim(s.threads[i]).Some? ==> Claim(s.threads[i]) != Claim(s.threads[j]);
      case Retire(t) => assert !Relies(s.threads[j], t);
      case _ =>
    }
  }

  /** The thread that acts is left with a claim that holds. */
  lemma ActorKept(s: State, a: Action)
    requires Inv(s) && Enabled(s, a) && Actor(a).Some?
    ensures ClaimKept(Apply(s, a), NextPc(s, a))
  {
    hide Counted, ClaimsApart, Tokens;
    var i := Actor(a).value;
    assert i in s.threads ==> ClaimKept(s, s.threads[i]);
  }

  lemma ClaimsStayKept(s: State, a: Action)
    requires Inv(s) && Enabled(s, a)
    ensures forall j :: j in Apply(s, a).threads ==> ClaimKept(Apply(s, a), Apply(s, a).threads[j])
  {
    hide Counted, ClaimKept, ClaimsApart, Enabled, Tokens, NextPc, NextBlocks, NextCells;
    var s' := Apply(s, a);
    forall j | j in s'.threads ensures ClaimKept(s', s'.threads[j]) {
      if Actor(a) == Some(j) {
        ActorKept(s, a);
      } else {
        BystanderKept(s, a, j);
      }
    }
  }

  /** An acting thread's new claim is its old one, an unclaimed block it was just handed, or a fresh block. */
  lemma ClaimIsNew(s: State, a: Action, j: Thread)
    requires Inv(s) && Enabled(s, a) && Actor(a).Some? && j in s.threads && j != Actor(a).value
    ensures Claim(NextPc(s, a)).Some? ==> Claim(NextPc(s, a)) != Claim(s.threads[j])
  {
    hide Counted;
    var i := Actor(a).value;
    assert ClaimKept(s, s.threads[j]);
    if i in s.threads {
      assert Claim(s.threads[i]).Some? ==> Claim(s.threads[i]) != Claim(s.threads[j]);
    }
  }

  lemma ClaimsStayApart(s: State, a: Action)
    requires Inv(s) && Enabled(s, a)
    ensures ClaimsApart(Apply(s, a))
  {
    hide Counted, ClaimKept, Enabled, Claim, Tokens, NextPc, NextBlocks, NextCells;
    var s' := Apply(s, a);
    forall i, j | i in s'.threads && j in s'.threads && i != j && Claim(s'.threads[i]).Some?
      ensures Claim(s'.threads[i]) != Claim(s'.threads[j])
    {
      if Actor(a) == Some(i) {
        ClaimIsNew(s, a, j);
      } else if Actor(a) == Some(j) {
        ClaimIsNew(s, a, i);
      }
    }
  }

  lemma InvKept(s: State, a: Action)
    requires Inv(s) && Enabled(s, a)
    ensures Inv(Apply(s, a))
  {
    hide Counted, ClaimKept, ClaimsApart;
    forall t ensures Counted(Apply(s, a), t) {
      CountKept(s, a, t);
    }
    ClaimsStayKept(s, a);
    ClaimsStayApart(s, a);
    NoFault(s, a);
  }

  lemma NoFault(s: State, a: Action)
    requires Inv(s) && Enabled(s, a)
    ensures !Apply(s, a).fault && forall t :: t in Apply(s, a).refs ==> t in Apply(s, a).cells
  {
    hide ClaimKept, ClaimsApart, Owed;
    if Touched(s, a).Some? {
      TouchedExists(s, a);
      assert Counted(s, Touched(s, a).value);
    }
  }

  // ---- whole runs ----------------------------------------------------------------------------

  lemma EmptyInv()
    ensures Inv(EMPTY)
  {
    forall t ensures Counted(EMPTY, t) {
      assert Headers(EMPTY, t) == {} && Carriers(EMPTY, t) == {};
    }
  }

  lemma {:induction false} RunInv(states: seq<State>, trace: seq<Action>, k: nat)
    requires Run(states, trace) && k < |states|
    ensures Inv(states[k])
  {
    hide Inv;
    if k == 0 {
      EmptyInv();
    } else {
      RunInv(states, trace, k - 1);
      assert StepAt(states, trace, k - 1);
      InvKept(states[k - 1], trace[k - 1]);
    }
  }

  /**
   * In every interleaving: no lock section touches a destroyed token, every count is one for an
   * unretired cell plus the headers naming the token plus the references in flight, and a token is
   * destroyed exactly once, when none of those is left.
   */
  lemma TokenLifetime(states: seq<State>, trace: seq<Action>, k: nat, t: Token)
    requires Run(states, trace) && k < |states|
    ensures !states[k].fault
    ensures t in states[k].refs ==> states[k].refs[t] == Owed(states[k], t) > 0
    ensures states[k].destroyed[t] <= 1
    ensures states[k].destroyed[t] == 1 <==> t in states[k].cells && Owed(states[k], t) == 0
    ensures k < |trace| && Touched(states[k], trace[k]).Some? ==> Touched(states[k], trace[k]).value in states[k].refs
  {
    RunInv(states, trace, k);
    assert Counted(states[k], t);
    if k < |trace| && Touched(states[k], trace[k]).Some? {
      assert StepAt(states, trace, k);
      TouchedExists(states[k], trace[k]);
    }
  }

  /** Between its own steps a thread stays where it is. */
  lemma {:induction false} ThreadWaits(states: seq<State>, trace: seq<Action>, i: Thread, k: nat, m: nat)
    requires Run(states, trace) && k <= m < |states| && forall j :: k <= j < m ==> Actor(trace[j]) != Some(i)
    ensures PcOf(states[m], i) == PcOf(states[k], i)
    decreases m
  {
    hide Tokens, NextPc, NextBlocks, NextCells;
    if k < m {
      ThreadWaits(states, trace, i, k, m - 1);
      assert StepAt(states, trace, m - 1);
    }
  }

  /**
   * Who a new header names, in every interleaving: the owner of the block the call started from, if
   * it had one, and otherwise the token of the isolate the call was made under.
   */
  lemma HeaderNamesPayer(
    states: seq<State>, trace: seq<Action>, i: Thread, k: nat, m: nat, n: nat, p: Option<Address>, size: nat,
    current: Option<Token>, q: Address)
    requires Run(states, trace) && k < m < n < |trace|
    requires trace[k] == Enter(i, p, size, current) && trace[m] == Prepare(i, true) && trace[n] == Backing(i, Some(q))
    requires forall j :: k < j < n && j != m ==> Actor(trace[j]) != Some(i)
    ensures q in states[n + 1].blocks
    ensures p.Some? && p.value in states[k].blocks && states[k].blocks[p.value].Some? ==>
              states[n + 1].blocks[q] == states[k].blocks[p.value]
    ensures p.None? || p.value !in states[k].blocks || states[k].blocks[p.value].None? ==>
              current.Some? && states[n + 1].blocks[q] == current
  {
    hide Tokens, NextCells;
    assert StepAt(states, trace, k) && StepAt(states, trace, m) && StepAt(states, trace, n);
    ThreadWaits(states, trace, i, k + 1, m);
    ThreadWaits(states, trace, i, m + 1, n);
  }
}
