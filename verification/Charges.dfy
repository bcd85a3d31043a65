/**
 * Charges under concurrency (alloc.zig:185-272 and 376-448): the same interleaved lock sections as
 * `OwnerTokens`, now with header sizes and the counters of each cell. Between lock sections a block
 * may be written but not yet accounted, or freed but not yet released; the invariant says what the
 * counters hold for each of them.
 */
module Charges {
  import opened BigEndian
  import opened Ledger
  import opened OwnerTokens
  import opened Results

  datatype Header = Header(size: nat, owner: Option<Token>)

  /** What a thread works with inside mrb_basic_alloc_func: the size asked for and the header it read. */
  datatype Request = Request(size: nat, was: Option<Header>)

  /** A cell's live_bytes and live_allocs. */
  datatype Counters = Counters(bytes: nat, allocs: nat)

  datatype Charge = Charge(token: Token, bytes: nat)

  /**
   * `sizes` is the header size of each block, `requests` the locals of each thread, `live` the
   * counters of each cell. The other two are a history of the charges that make up those counters:
   * `charged` are those with a block, `due` those of blocks a thread has freed and not yet released.
   */
  datatype Book = Book(
    sizes: map<Address, nat>,
    requests: map<Thread, Request>,
    live: map<Token, Counters>,
    charged: map<Address, Charge>,
    due: map<Thread, Charge>)

  const BLANK := Book(map[], map[], map[], map[], map[])

  function HeaderAt(s: State, b: Book, p: Option<Address>): Option<Header> {
    if p.Some? && p.value in s.blocks && p.value in b.sizes
    then Some(Header(b.sizes[p.value], s.blocks[p.value])) else None
  }

  function Asked(b: Book, i: Thread): Request {
    if i in b.requests then b.requests[i] else Request(0, None)
  }

  function CountersOf(b: Book, t: Token): Counters {
    if t in b.live then b.live[t] else Counters(0, 0)
  }

  /** What token `t` has already paid for the block a thread started from. */
  function PaidBefore(r: Request, t: Token): Option<Charge> {
    if r.was.Some? && r.was.value.owner == Some(t) then Some(Charge(t, r.was.value.size)) else None
  }

  /** accountResize for a block the token paid for, accountNew or the adopting half of accountResize otherwise. */
  function Charged(c: Counters, r: Request, t: Token): Counters {
    if PaidBefore(r, t).Some?
    then c.(bytes := SaturatingAdd(SaturatingSub(c.bytes, r.was.value.size), r.size))
    else Counters(SaturatingAdd(c.bytes, r.size), SaturatingAdd(c.allocs, 1))
  }

  /** releaseAllocation after a free, releaseUncommitted after a failure. */
  function Discharged(c: Counters, r: Request): Counters {
    if r.size == 0 && r.was.Some?
    then Counters(SaturatingSub(c.bytes, r.was.value.size), SaturatingSub(c.allocs, 1))
    else c
  }

  /** A charge goes where its block goes. */
  function Moved(charged: map<Address, Charge>, from: Address, dest: Address): map<Address, Charge> {
    if from in charged then (charged - {from})[dest := charged[from]] else charged
  }

  /** A lock section of `t` changes the counters only while the cell is there. */
  function Recounted(s: State, b: Book, t: Token, c: Counters): map<Token, Counters> {
    if IsLive(s, t) then b.live[t := c] else b.live
  }

  /** What each step does to the book. */
  function Turn(s: State, b: Book, a: Action): Book
    requires Enabled(s, a)
  {
    match a
    case InitOwnership(t) => b.(live := b.live[t := Counters(0, 0)])
    case Enter(i, p, size, _) =>
      var b1 := b.(requests := b.requests[i := Request(size, HeaderAt(s, b, p))]);
      if size == 0 && p.Some?
      then b1.(sizes := b.sizes - {p.value}, charged := b.charged - {p.value},
               due := if p.value in b.charged then b.due[i := b.charged[p.value]] else b.due)
      else b1
    case Backing(i, q) =>
      var p := PcOf(s, i).p;
      if q.None? then b
      else b.(sizes := (if p.Some? then b.sizes - {p.value} else b.sizes)[q.value := Asked(b, i).size],
              charged := if p.Some? then Moved(b.charged, p.value, q.value) else b.charged)
    case Account(i) =>
      var pc, r := PcOf(s, i), Asked(b, i);
      b.(live := Recounted(s, b, pc.token, Charged(CountersOf(b, pc.token), r, pc.token)),
         charged := b.charged[pc.q := Charge(pc.token, r.size)])
    case Release(i) =>
      var t := PcOf(s, i).token;
      b.(live := Recounted(s, b, t, Discharged(CountersOf(b, t), Asked(b, i))), due := b.due - {i})
    case _ => b
  }

  /** The addition this step makes stays below the saturation point. */
  predicate Unsaturated(s: State, b: Book, a: Action)
    requires Enabled(s, a)
  {
    a.Account? ==>
      var t, r := PcOf(s, a.i).token, Asked(b, a.i);
      var c := CountersOf(b, t);
      IsLive(s, t) ==>
        if PaidBefore(r, t).Some? then SaturatingSub(c.bytes, r.was.value.size) + r.size < U64
        else c.bytes + r.size < U64 && c.allocs + 1 < U64
  }

  // ---- the invariant -------------------------------------------------------------------------

  /** The charges on token `t`. */
  ghost function Of(held: map<nat, Charge>, t: Token): map<nat, nat> {
    map k | k in held && held[k].token == t :: held[k].bytes
  }

  ghost function Sum(held: map<nat, Charge>, t: Token): nat {
    Total(Of(held, t))
  }

  ghost function Number(held: map<nat, Charge>, t: Token): nat {
    |Of(held, t)|
  }

  ghost function ChargesOn(b: Book, t: Token): Counters {
    Counters(Sum(b.charged, t) + Sum(b.due, t), Number(b.charged, t) + Number(b.due, t))
  }

  predicate HeldIs(held: map<nat, Charge>, k: nat, c: Option<Charge>) {
    if c.Some? then k in held && held[k] == c.value else k !in held
  }

  function OwnerCharge(owner: Option<Token>, size: nat): Option<Charge> {
    if owner.Some? then Some(Charge(owner.value, size)) else None
  }

  /** What a thread in the middle of a call still finds in the book. */
  predicate RequestKept(s: State, b: Book, i: Thread, pc: Pc) {
    var r := Asked(b, i);
    match pc
    case Outside => true
    case Chosen(p, _, _) => r.size > 0 && r.was == HeaderAt(s, b, p)
    case Prepared(p, _, _) => r.size > 0 && r.was == HeaderAt(s, b, p)
    case Written(q, t) =>
      r.size > 0 && q in b.sizes && b.sizes[q] == r.size && HeldIs(b.charged, q, PaidBefore(r, t))
    case Dropping(t) =>
      (r.size == 0 ==> PaidBefore(r, t).Some?) && HeldIs(b.due, i, if r.size == 0 then PaidBefore(r, t) else None)
  }

  predicate Unwritten(s: State, a: Address) {
    forall i :: i in s.threads && s.threads[i].Written? ==> s.threads[i].q != a
  }

  /** A block no thread is about to account is charged to its owner, for its size. */
  predicate BlockKept(s: State, b: Book, a: Address) {
    a in s.blocks ==>
      && a in b.sizes
      && (Unwritten(s, a) ==> HeldIs(b.charged, a, OwnerCharge(s.blocks[a], b.sizes[a])))
  }

  /** A charge with a block is its owner's. */
  predicate ChargedKept(s: State, b: Book, a: Address) {
    a in b.charged ==> a in s.blocks && s.blocks[a] == Some(b.charged[a].token)
  }

  /** A charge with a thread is on the token it is about to drop. */
  predicate DueKept(s: State, b: Book, i: Thread) {
    i in b.due ==> i in s.threads && s.threads[i] == Dropping(b.due[i].token)
  }

  /** A cell's counters are the sum and the number of the charges on its token. */
  ghost predicate Balanced(s: State, b: Book, t: Token) {
    IsLive(s, t) ==> t in b.live && b.live[t] == ChargesOn(b, t)
  }

  /** Every thread, block and charge is in place. */
  ghost predicate Placed(s: State, b: Book) {
    && (forall i :: i in s.threads ==> RequestKept(s, b, i, s.threads[i]))
    && (forall a :: BlockKept(s, b, a))
    && (forall a :: ChargedKept(s, b, a))
    && (forall i :: DueKept(s, b, i))
  }

  ghost predicate BookInv(s: State, b: Book) {
    Placed(s, b) && forall t :: Balanced(s, b, t)
  }

  // ---- sums of charges -----------------------------------------------------------------------

  lemma OfWithout(held: map<nat, Charge>, k: nat, t: Token)
    requires k in held
    ensures Sum(held - {k}, t) == Sum(held, t) - (if held[k].token == t then held[k].bytes else 0)
    ensures Number(held - {k}, t) == Number(held, t) - (if held[k].token == t then 1 else 0)
  {
    var m := Of(held, t);
    if held[k].token == t {
      assert Of(held - {k}, t) == m - {k};
      TotalWithout(m, k);
      Removed(m, k);
    } else {
      assert Of(held - {k}, t) == m;
    }
  }

  lemma OfTakenOff(held: map<nat, Charge>, k: nat, t: Token)
    ensures var c := if k in held && held[k].token == t then Some(held[k].bytes) else None;
            && Sum(held - {k}, t) == Sum(held, t) - (if c.Some? then c.value else 0)
            && Number(held - {k}, t) == Number(held, t) - (if c.Some? then 1 else 0)
  {
    if k in held {
      OfWithout(held, k, t);
    } else {
      assert held - {k} == held;
    }
  }

  lemma OfWith(held: map<nat, Charge>, k: nat, c: Charge, t: Token)
    requires k !in held
    ensures Sum(held[k := c], t) == Sum(held, t) + (if c.token == t then c.bytes else 0)
    ensures Number(held[k := c], t) == Number(held, t) + (if c.token == t then 1 else 0)
  {
    assert held[k := c] - {k} == held;
    OfWithout(held[k := c], k, t);
  }

  lemma OfMoved(charged: map<Address, Charge>, from: Address, dest: Address, t: Token)
    requires dest == from || dest !in charged
    ensures Sum(Moved(charged, from, dest), t) == Sum(charged, t)
    ensures Number(Moved(charged, from, dest), t) == Number(charged, t)
  {
    hide Sum, Number;
    if from in charged {
      OfWithout(charged, from, t);
      OfWith(charged - {from}, dest, charged[from], t);
    }
  }

  /** Accounting replaces a block's charge, if it had one, by one for the new size. */
  lemma OfAccounted(charged: map<Address, Charge>, q: Address, c: Charge, t: Token)
    requires q in charged ==> charged[q].token == c.token
    ensures Sum(charged[q := c], t) == Sum(charged, t) + (if c.token == t then c.bytes else 0)
                                       - (if q in charged && c.token == t then charged[q].bytes else 0)
    ensures Number(charged[q := c], t) == Number(charged, t) + (if c.token == t && q !in charged then 1 else 0)
  {
    hide Sum, Number;
    OfTakenOff(charged, q, t);
    OfWith(charged - {q}, q, c, t);
    assert charged[q := c] == (charged - {q})[q := c];
  }

  /** Nothing is subtracted that is not there. */
  lemma ChargeCovered(held: map<nat, Charge>, k: nat, t: Token)
    requires k in held && held[k].token == t
    ensures Sum(held, t) >= held[k].bytes && Number(held, t) > 0
  {
    TotalWithout(Of(held, t), k);
  }

  // ---- one step ------------------------------------------------------------------------------

  /** What a step is about to subtract, absent saturation. */
  function Subtracted(s: State, b: Book, a: Action): Counters
    requires Enabled(s, a)
  {
    match a
    case Account(i) =>
      var r := Asked(b, i);
      if PaidBefore(r, PcOf(s, i).token).Some? then Counters(r.was.value.size, 0) else Counters(0, 0)
    case Release(i) =>
      var r := Asked(b, i);
      if r.size == 0 && r.was.Some? then Counters(r.was.value.size, 1) else Counters(0, 0)
    case _ => Counters(0, 0)
  }

  /** Before every subtraction the counters cover it: nothing saturates from below. */
  lemma NeverBelowZero(s: State, b: Book, a: Action)
    requires BookInv(s, b) && Enabled(s, a) && Touched(s, a).Some? && IsLive(s, Touched(s, a).value)
    ensures var c := CountersOf(b, Touched(s, a).value);
            Subtracted(s, b, a).bytes <= c.bytes && Subtracted(s, b, a).allocs <= c.allocs
  {
    var t := Touched(s, a).value;
    assert Balanced(s, b, t);
    match a {
      case Account(i) =>
        assert RequestKept(s, b, i, s.threads[i]);
        if PaidBefore(Asked(b, i), t).Some? {
          ChargeCovered(b.charged, s.threads[i].q, t);
        }
      case Release(i) =>
        assert RequestKept(s, b, i, s.threads[i]);
        if Asked(b, i).size == 0 {
          ChargeCovered(b.due, i, t);
        }
      case _ =>
    }
  }

  lemma BalanceKept(s: State, b: Book, a: Action, t: Token)
    requires Inv(s) && BookInv(s, b) && Enabled(s, a) && Unsaturated(s, b, a)
    ensures Balanced(Apply(s, a), Turn(s, b, a), t)
  {
    hide Inv, Placed, Sum, Number, Tokens;
    assert Balanced(s, b, t);
    match a {
      case InitOwnership(t0) =>
        if t == t0 {
          FreshUncharged(s, b, t);
        }
      case Retire(_) =>
      case Enter(i, p, size, current) => EnterBalances(s, b, i, p, size, current, t);
      case Prepare(_, _) =>
      case Backing(i, q) => BackingBalances(s, b, i, q, t);
      case Account(i) => AccountBalances(s, b, i, t);
      case Release(i) => ReleaseBalances(s, b, i, t);
    }
  }

  /** Freeing a block hands its charge to the thread; no total moves. */
  lemma EnterBalances(
    s: State, b: Book, i: Thread, p: Option<Address>, size: nat, current: Option<Token>, t: Token)
    requires Placed(s, b) && Enabled(s, Enter(i, p, size, current))
    ensures ChargesOn(Turn(s, b, Enter(i, p, size, current)), t) == ChargesOn(b, t)
    ensures Turn(s, b, Enter(i, p, size, current)).live == b.live
  {
    NothingDue(s, b, i);
    if size == 0 && p.Some? {
      HandedOver(b, Turn(s, b, Enter(i, p, size, current)), p.value, i, t);
    }
  }

  lemma HandedOver(b: Book, b': Book, p: Address, i: Thread, t: Token)
    requires i !in b.due && b'.charged == b.charged - {p}
    requires b'.due == if p in b.charged then b.due[i := b.charged[p]] else b.due
    ensures ChargesOn(b', t) == ChargesOn(b, t)
  {
    hide Sum, Number;
    OfTakenOff(b.charged, p, t);
    if p in b.charged {
      OfWith(b.due, i, b.charged[p], t);
    }
  }

  /** A new header keeps the charge of the block it replaces until it is accounted. */
  lemma BackingBalances(s: State, b: Book, i: Thread, q: Option<Address>, t: Token)
    requires Placed(s, b) && Enabled(s, Backing(i, q))
    ensures ChargesOn(Turn(s, b, Backing(i, q)), t) == ChargesOn(b, t) && Turn(s, b, Backing(i, q)).live == b.live
  {
    hide Sum, Number, Placed;
    var p := s.threads[i].p;
    if q.Some? && p.Some? {
      if q != p {
        NothingCharged(s, b, q.value);
      }
      OfMoved(b.charged, p.value, q.value, t);
    }
  }

  lemma NothingDue(s: State, b: Book, i: Thread)
    requires Placed(s, b) && PcOf(s, i).Outside?
    ensures i !in b.due
  {
    assert DueKept(s, b, i);
  }

  lemma NothingCharged(s: State, b: Book, q: Address)
    requires Placed(s, b) && q !in s.blocks
    ensures q !in b.charged
  {
    assert ChargedKept(s, b, q);
  }

  /** No charge names a token that does not exist yet. */
  lemma FreshUncharged(s: State, b: Book, t: Token)
    requires Inv(s) && Placed(s, b) && t !in s.refs
    ensures ChargesOn(b, t) == Counters(0, 0)
  {
    assert Counted(s, t);
    forall a | a in b.charged ensures b.charged[a].token != t {
      assert ChargedKept(s, b, a);
      if b.charged[a].token == t {
        HeaderNamesIt(s, a);
      }
    }
    forall i | i in b.due ensures b.due[i].token != t {
      assert DueKept(s, b, i);
      if b.due[i].token == t {
        ThreadCarriesIt(s, i);
      }
    }
    assert Of(b.charged, t) == map[] && Of(b.due, t) == map[];
  }

  lemma AccountBalances(s: State, b: Book, i: Thread, t: Token)
    requires BookInv(s, b) && Enabled(s, Account(i)) && Unsaturated(s, b, Account(i))
    ensures Balanced(s, Turn(s, b, Account(i)), t)
  {
    assert RequestKept(s, b, i, s.threads[i]) && Balanced(s, b, t);
    hide Sum, Number, Placed, BookInv;
    if t == s.threads[i].token && IsLive(s, t) {
      NeverBelowZero(s, b, Account(i));
    }
    var pc, r := s.threads[i], Asked(b, i);
    OfAccounted(b.charged, pc.q, Charge(pc.token, r.size), t);
  }

  lemma ReleaseBalances(s: State, b: Book, i: Thread, t: Token)
    requires BookInv(s, b) && Enabled(s, Release(i))
    ensures Balanced(s, Turn(s, b, Release(i)), t)
  {
    assert Placed(s, b) && Balanced(s, b, t);
    hide ChargesOn, Placed, BookInv, Balanced;
    DueOf(s, b, i);
    if t == s.threads[i].token && IsLive(s, t) {
      NeverBelowZero(s, b, Release(i));
    }
    Returned(s, b, Turn(s, b, Release(i)), i, t);
  }

  lemma Returned(s: State, b: Book, b': Book, i: Thread, t: Token)
    requires Balanced(s, b, t) && PcOf(s, i).Dropping? && b'.charged == b.charged && b'.due == b.due - {i}
    requires DueIs(s, b, i)
    requires var t, r := PcOf(s, i).token, Asked(b, i);
             b'.live == Recounted(s, b, t, Discharged(CountersOf(b, t), r))
    requires t == PcOf(s, i).token && IsLive(s, t) && i in b.due ==>
               b.due[i].bytes <= CountersOf(b, t).bytes && 1 <= CountersOf(b, t).allocs
    ensures Balanced(s, b', t)
  {
    GivenBack(b, b', i, t);
    hide ChargesOn;
  }

  lemma GivenBack(b: Book, b': Book, i: Thread, t: Token)
    requires b'.charged == b.charged && b'.due == b.due - {i}
    ensures var c, c', due := ChargesOn(b, t), ChargesOn(b', t), i in b.due && b.due[i].token == t;
            && c'.bytes == c.bytes - (if due then b.due[i].bytes else 0)
            && c'.allocs == c.allocs - (if due then 1 else 0)
  {
    hide Sum, Number;
    OfTakenOff(b.due, i, t);
  }

  predicate DueIs(s: State, b: Book, i: Thread)
    requires PcOf(s, i).Dropping?
  {
    var t, r := PcOf(s, i).token, Asked(b, i);
    if r.size == 0 then r.was.Some? && i in b.due && b.due[i] == Charge(t, r.was.value.size) else i !in b.due
  }

  /** What a release gives back is what is due. */
  lemma DueOf(s: State, b: Book, i: Thread)
    requires Placed(s, b) && Enabled(s, Release(i))
    ensures DueIs(s, b, i)
  {
    assert RequestKept(s, b, i, s.threads[i]);
  }

  /** The acting thread finds in the book what it needs next. */
  lemma ActorsRequest(s: State, b: Book, a: Action)
    requires Inv(s) && Placed(s, b) && Enabled(s, a) && Actor(a).Some?
    ensures RequestKept(Apply(s, a), Turn(s, b, a), Actor(a).value, NextPc(s, a))
  {
    hide Inv, Placed, RequestKept, Apply, Turn;
    match a {
      case Enter(i, p, size, current) => EntersRequest(s, b, i, p, size, current);
      case Prepare(i, accept) => PreparedRequest(s, b, i, accept);
      case Backing(i, q) => BackedRequest(s, b, i, q);
      case Account(i) => OutsideKept(Apply(s, a), Turn(s, b, a), i);
      case Release(i) => OutsideKept(Apply(s, a), Turn(s, b, a), i);
      case _ =>
    }
  }

  lemma OutsideKept(s: State, b: Book, i: Thread)
    ensures RequestKept(s, b, i, Outside)
  {
  }

  lemma EntersRequest(s: State, b: Book, i: Thread, p: Option<Address>, size: nat, current: Option<Token>)
    requires Inv(s) && Placed(s, b) && Enabled(s, Enter(i, p, size, current))
    ensures var a := Enter(i, p, size, current); RequestKept(Apply(s, a), Turn(s, b, a), i, NextPc(s, a))
  {
    hide Inv, ChargedKept, DueKept, Tokens, NextCells;
    NothingDue(s, b, i);
    if p.Some? {
      UnclaimedUnwritten(s, p.value);
      assert BlockKept(s, b, p.value);
    }
  }

  lemma UnclaimedUnwritten(s: State, x: Address)
    requires Unclaimed(s, x)
    ensures Unwritten(s, x)
  {
    forall i | i in s.threads && s.threads[i].Written? ensures s.threads[i].q != x {
      assert Claim(s.threads[i]) != Some(x);
    }
  }

  lemma PreparedRequest(s: State, b: Book, i: Thread, accept: bool)
    requires Inv(s) && Placed(s, b) && Enabled(s, Prepare(i, accept))
    ensures RequestKept(Apply(s, Prepare(i, accept)), Turn(s, b, Prepare(i, accept)), i, NextPc(s, Prepare(i, accept)))
  {
    hide Inv, BlockKept, ChargedKept, DueKept, Tokens, NextCells;
    assert RequestKept(s, b, i, s.threads[i]);
  }

  lemma BackedRequest(s: State, b: Book, i: Thread, q: Option<Address>)
    requires Inv(s) && Placed(s, b) && Enabled(s, Backing(i, q))
    ensures RequestKept(Apply(s, Backing(i, q)), Turn(s, b, Backing(i, q)), i, NextPc(s, Backing(i, q)))
  {
    hide Counted, ClaimsApart, ChargedKept, Tokens, NextCells;
    assert ClaimKept(s, s.threads[i]) && RequestKept(s, b, i, s.threads[i]) && DueKept(s, b, i);
    var p := s.threads[i].p;
    if p.Some? {
      ClaimedUnwritten(s, i, p.value);
      assert BlockKept(s, b, p.value);
    }
    if q.Some? && q != p {
      NothingCharged(s, b, q.value);
    }
  }

  /** No one else is writing the block a thread has claimed. */
  lemma ClaimedUnwritten(s: State, i: Thread, a: Address)
    requires Inv(s) && i in s.threads && s.threads[i].Prepared? && s.threads[i].p == Some(a)
    ensures Unwritten(s, a)
  {
    forall j | j in s.threads && s.threads[j].Written? ensures s.threads[j].q != a {
      assert Claim(s.threads[i]).Some? && Claim(s.threads[j]).Some?;
    }
  }

  // ---- what a step leaves alone --------------------------------------------------------------

  /** The addresses a step is about. */
  function Area(s: State, a: Action): set<Address>
    requires Enabled(s, a)
  {
    match a
    case Enter(_, p, size, _) => if size == 0 && p.Some? then {p.value} else {}
    case Backing(i, q) =>
      if q.None? then {} else if PcOf(s, i).p.Some? then {PcOf(s, i).p.value, q.value} else {q.value}
    case Account(i) => {PcOf(s, i).q}
    case _ => {}
  }

  predicate SameHeld(held: map<nat, Charge>, held': map<nat, Charge>, k: nat) {
    (k in held' <==> k in held) && (k in held ==> held'[k] == held[k])
  }

  predicate SameAt(s: State, b: Book, s': State, b': Book, x: Address) {
    && (x in s'.blocks <==> x in s.blocks) && (x in s.blocks ==> s'.blocks[x] == s.blocks[x])
    && (x in b'.sizes <==> x in b.sizes) && (x in b.sizes ==> b'.sizes[x] == b.sizes[x])
    && SameHeld(b.charged, b'.charged, x)
  }

  lemma AreaOnly(s: State, b: Book, a: Action, x: Address)
    requires Enabled(s, a) && x !in Area(s, a)
    ensures SameAt(s, b, Apply(s, a), Turn(s, b, a), x)
  {
    hide Tokens, NextPc, Claim;
  }

  lemma FlightOnly(s: State, b: Book, a: Action, j: Thread)
    requires Enabled(s, a) && Actor(a) != Some(j)
    ensures SameHeld(b.due, Turn(s, b, a).due, j) && Asked(Turn(s, b, a), j) == Asked(b, j)
  {
  }

  lemma RequestFrame(s: State, b: Book, s': State, b': Book, j: Thread, pc: Pc)
    requires RequestKept(s, b, j, pc) && Asked(b', j) == Asked(b, j) && SameHeld(b.due, b'.due, j)
    requires Claim(pc).Some? ==> SameAt(s, b, s', b', Claim(pc).value)
    ensures RequestKept(s', b', j, pc)
  {
  }

  /** No thread but the actor has a claim on what the step is about. */
  lemma AreaUnclaimed(s: State, a: Action, j: Thread)
    requires Inv(s) && Enabled(s, a) && j in s.threads && Actor(a) != Some(j) && Claim(s.threads[j]).Some?
    ensures Claim(s.threads[j]).value !in Area(s, a)
  {
    hide Counted;
    assert ClaimKept(s, s.threads[j]);
    if Actor(a).Some? && Actor(a).value in s.threads {
      assert Claim(s.threads[j]) != Claim(s.threads[Actor(a).value]);
    }
  }

  /** A thread that does not act finds its request and its charge as they were. */
  lemma BystandersRequest(s: State, b: Book, a: Action, j: Thread)
    requires Inv(s) && Placed(s, b) && Enabled(s, a) && j in s.threads && Actor(a) != Some(j)
    ensures RequestKept(Apply(s, a), Turn(s, b, a), j, s.threads[j])
  {
    hide Inv, RequestKept, BlockKept, ChargedKept, DueKept, Enabled, Turn, Apply, SameAt, SameHeld, Area, Claim;
    FlightOnly(s, b, a, j);
    if Claim(s.threads[j]).Some? {
      AreaUnclaimed(s, a, j);
      AreaOnly(s, b, a, Claim(s.threads[j]).value);
    }
    RequestFrame(s, b, Apply(s, a), Turn(s, b, a), j, s.threads[j]);
  }

  /** Outside its area a step writes no block and stops no one writing one. */
  lemma UnwrittenBefore(s: State, a: Action, x: Address)
    requires Enabled(s, a) && x !in Area(s, a) && Unwritten(Apply(s, a), x)
    ensures Unwritten(s, x)
  {
    hide Tokens, NextBlocks, NextCells;
    forall i | i in s.threads && s.threads[i].Written? ensures s.threads[i].q != x {
      if Actor(a) != Some(i) {
        assert Apply(s, a).threads[i] == s.threads[i];
      }
    }
  }

  lemma BlocksStayKept(s: State, b: Book, a: Action, x: Address)
    requires Inv(s) && Placed(s, b) && Enabled(s, a)
    ensures BlockKept(Apply(s, a), Turn(s, b, a), x)
  {
    hide Inv, RequestKept, ChargedKept, DueKept, Turn, Apply, Area;
    assert BlockKept(s, b, x);
    if x !in Area(s, a) {
      AreaOnly(s, b, a, x);
      if Unwritten(Apply(s, a), x) {
        UnwrittenBefore(s, a, x);
      }
    } else {
      AreaBlocksKept(s, b, a, x);
    }
  }

  lemma AreaBlocksKept(s: State, b: Book, a: Action, x: Address)
    requires Inv(s) && Placed(s, b) && Enabled(s, a) && x in Area(s, a)
    ensures BlockKept(Apply(s, a), Turn(s, b, a), x)
  {
    hide Counted, ClaimsApart, Balanced, Tokens, NextCells;
    match a {
      case Enter(_, _, _, _) =>
      case Backing(i, q) =>
        assert ClaimKept(s, s.threads[i]);
        var p := s.threads[i].p;
        if p.Some? {
          ClaimedUnwritten(s, i, p.value);
          assert BlockKept(s, b, p.value);
        }
        if q != p {
          NothingCharged(s, b, q.value);
        }
        assert x == q.value && s.threads[i].owner.Some? ==> Apply(s, a).threads[i].Written?;
      case Account(i) =>
        assert ClaimKept(s, s.threads[i]) && RequestKept(s, b, i, s.threads[i]);
      case _ =>
    }
  }

  lemma ChargesStayKept(s: State, b: Book, a: Action, x: Address)
    requires Inv(s) && Placed(s, b) && Enabled(s, a)
    ensures ChargedKept(Apply(s, a), Turn(s, b, a), x)
  {
    hide Inv, RequestKept, BlockKept, DueKept, Turn, Apply, Area;
    assert ChargedKept(s, b, x);
    if x !in Area(s, a) {
      AreaOnly(s, b, a, x);
    } else {
      AreaChargesKept(s, b, a, x);
    }
  }

  lemma AreaChargesKept(s: State, b: Book, a: Action, x: Address)
    requires Inv(s) && Placed(s, b) && Enabled(s, a) && x in Area(s, a)
    ensures ChargedKept(Apply(s, a), Turn(s, b, a), x)
  {
    hide Counted, ClaimsApart, Balanced, Tokens, NextCells, RequestKept, BlockKept;
    match a {
      case Backing(i, q) =>
        assert ClaimKept(s, s.threads[i]);
        var p := s.threads[i].p;
        if p.Some? {
          assert ChargedKept(s, b, p.value);
        }
        if q != p {
          NothingCharged(s, b, q.value);
        }
      case Account(i) => assert ClaimKept(s, s.threads[i]);
      case _ =>
    }
  }

  lemma DuesStayKept(s: State, b: Book, a: Action, j: Thread)
    requires Inv(s) && Placed(s, b) && Enabled(s, a)
    ensures DueKept(Apply(s, a), Turn(s, b, a), j)
  {
    hide Counted, ClaimKept, ClaimsApart, Tokens, NextCells, RequestKept, BlockKept;
    assert DueKept(s, b, j);
    match a {
      case Enter(_, p, size, _) =>
        if p.Some? {
          assert ChargedKept(s, b, p.value);
        }
      case _ =>
    }
  }

  lemma PlacedKept(s: State, b: Book, a: Action)
    requires Inv(s) && Placed(s, b) && Enabled(s, a)
    ensures Placed(Apply(s, a), Turn(s, b, a))
  {
    hide Inv, Enabled, Turn, NextPc, RequestKept, BlockKept, ChargedKept, DueKept, Tokens;
    var s', b' := Apply(s, a), Turn(s, b, a);
    forall j | j in s'.threads ensures RequestKept(s', b', j, s'.threads[j]) {
      if Actor(a) == Some(j) {
        ActorsRequest(s, b, a);
      } else {
        BystandersRequest(s, b, a, j);
      }
    }
    forall x ensures BlockKept(s', b', x) {
      BlocksStayKept(s, b, a, x);
    }
    forall x ensures ChargedKept(s', b', x) {
      ChargesStayKept(s, b, a, x);
    }
    forall j ensures DueKept(s', b', j) {
      DuesStayKept(s, b, a, j);
    }
  }

  lemma BookKept(s: State, b: Book, a: Action)
    requires Inv(s) && BookInv(s, b) && Enabled(s, a) && Unsaturated(s, b, a)
    ensures BookInv(Apply(s, a), Turn(s, b, a))
  {
    hide Inv, Enabled, Unsaturated, Turn, Apply, Placed, Balanced;
    PlacedKept(s, b, a);
    forall t ensures Balanced(Apply(s, a), Turn(s, b, a), t) {
      BalanceKept(s, b, a, t);
    }
  }

  // ---- the charges in flight -----------------------------------------------------------------

  function SizeOf(b: Book, a: Address): nat {
    if a in b.sizes then b.sizes[a] else 0
  }

  /** The size of the block a thread started from. */
  function WasSize(r: Request): nat {
    if r.was.Some? then r.was.value.size else 0
  }

  /** The blocks token `t` owns, with their sizes. */
  ghost function Owned(s: State, b: Book, t: Token): map<Address, nat> {
    map a | a in s.blocks && s.blocks[a] == Some(t) :: SizeOf(b, a)
  }

  /** The threads that have written a header of `t` and not yet accounted it, with the new sizes. */
  ghost function Writing(s: State, b: Book, t: Token): map<Thread, nat> {
    map i | i in s.threads && s.threads[i].Written? && s.threads[i].token == t :: Asked(b, i).size
  }

  /** Those among them that replace a block `t` has paid for, with the old sizes. */
  ghost function Replacing(s: State, b: Book, t: Token): map<Thread, nat> {
    map i | i in s.threads && s.threads[i].Written? && s.threads[i].token == t && PaidBefore(Asked(b, i), t).Some?
      :: WasSize(Asked(b, i))
  }

  /** The threads that have freed a block of `t` and not yet released it, with its size. */
  ghost function Freed(s: State, b: Book, t: Token): map<Thread, nat> {
    map i | i in s.threads && s.threads[i] == Dropping(t) && Asked(b, i).size == 0 :: WasSize(Asked(b, i))
  }

  /** The charges on a token, in the program's own terms. */
  ghost predicate InFlightLaw(s: State, b: Book, t: Token, c: Counters) {
    AddsUp(c, Owned(s, b, t), Writing(s, b, t), Replacing(s, b, t), Freed(s, b, t))
  }

  ghost predicate AddsUp(
    c: Counters, owned: map<nat, nat>, writing: map<nat, nat>, replacing: map<nat, nat>, freed: map<nat, nat>)
  {
    && c.bytes + Total(writing) == Total(owned) + Total(replacing) + Total(freed)
    && c.allocs + |writing| == |owned| + |replacing| + |freed|
  }

  lemma {:induction false} ChargesInFlight(s: State, b: Book, t: Token)
    requires Inv(s) && Placed(s, b)
    ensures InFlightLaw(s, b, t, ChargesOn(b, t))
    decreases |Writing(s, b, t)|
  {
    hide Inv, Placed, Apply, Turn, Of, Owned, Replacing, Freed, AddsUp, ChargesOn, RequestKept;
    if Writing(s, b, t) == map[] {
      NoneWriting(s, b, t);
    } else {
      var i :| i in Writing(s, b, t);
      var a := Account(i);
      OneAccounted(s, b, i, t);
      InvKept(s, a);
      PlacedKept(s, b, a);
      Removed(Writing(s, b, t), i);
      ChargesInFlight(Apply(s, a), Turn(s, b, a), t);
      AccountEffect(s, b, i);
      WritersRequest(s, b, i, t);
      ChargesAfter(s, b, Turn(s, b, a), i, t);
      AddedUpBefore(ChargesOn(b, t), ChargesOn(Turn(s, b, a), t), Owned(s, b, t), Writing(s, b, t), Replacing(s, b, t),
                    Freed(s, b, t), i);
    }
  }

  /** With no header left to account, the charges are the owned blocks and the freed ones. */
  lemma NoneWriting(s: State, b: Book, t: Token)
    requires Inv(s) && Placed(s, b) && Writing(s, b, t) == map[]
    ensures InFlightLaw(s, b, t, ChargesOn(b, t))
  {
    hide Inv, Placed, Of;
    forall i | i in s.threads && s.threads[i].Written? ensures s.threads[i].token != t {
      assert i !in Writing(s, b, t);
    }
    assert Replacing(s, b, t) == map[];
    OwnedAreCharged(s, b, t);
    FreedAreCharged(s, b, t);
  }

  lemma OwnedAreCharged(s: State, b: Book, t: Token)
    requires Inv(s) && Placed(s, b)
    requires forall i :: i in s.threads && s.threads[i].Written? ==> s.threads[i].token != t
    ensures Of(b.charged, t) == Owned(s, b, t)
  {
    hide Inv, Placed;
    forall x
      ensures x in Of(b.charged, t) <==> x in Owned(s, b, t)
      ensures x in Owned(s, b, t) ==> Of(b.charged, t)[x] == Owned(s, b, t)[x]
    {
      OwnedIsCharged(s, b, t, x);
    }
  }

  lemma OwnedIsCharged(s: State, b: Book, t: Token, x: Address)
    requires Inv(s) && Placed(s, b)
    requires forall i :: i in s.threads && s.threads[i].Written? ==> s.threads[i].token != t
    ensures x in b.charged && b.charged[x].token == t <==> x in s.blocks && s.blocks[x] == Some(t)
    ensures x in s.blocks && s.blocks[x] == Some(t) ==> b.charged[x].bytes == SizeOf(b, x)
  {
    hide Counted, ClaimsApart, RequestKept;
    assert BlockKept(s, b, x) && ChargedKept(s, b, x);
    if x in s.blocks && s.blocks[x] == Some(t) {
      forall i | i in s.threads && s.threads[i].Written? ensures s.threads[i].q != x {
        assert ClaimKept(s, s.threads[i]);
      }
      assert Unwritten(s, x);
    }
  }

  lemma FreedAreCharged(s: State, b: Book, t: Token)
    requires Placed(s, b)
    ensures Of(b.due, t) == Freed(s, b, t)
  {
    hide BlockKept;
    forall i
      ensures i in Of(b.due, t) <==> i in Freed(s, b, t)
      ensures i in Freed(s, b, t) ==> Of(b.due, t)[i] == Freed(s, b, t)[i]
    {
      assert DueKept(s, b, i);
      if i in s.threads {
        assert RequestKept(s, b, i, s.threads[i]);
      }
    }
  }

  lemma WritersRequest(s: State, b: Book, i: Thread, t: Token)
    requires Placed(s, b) && i in Writing(s, b, t)
    ensures RequestKept(s, b, i, s.threads[i]) && s.threads[i].Written? && s.threads[i].token == t
  {
    hide RequestKept, BlockKept;
  }

  /** What accounting a header leaves as it was. */
  lemma AccountEffect(s: State, b: Book, i: Thread)
    requires Inv(s) && Enabled(s, Account(i))
    ensures var s', b', pc := Apply(s, Account(i)), Turn(s, b, Account(i)), s.threads[i];
            && s'.threads == s.threads[i := Outside] && s'.blocks == s.blocks
            && b'.sizes == b.sizes && b'.requests == b.requests
            && b'.charged == b.charged[pc.q := Charge(pc.token, Asked(b, i).size)] && b'.due == b.due
  {
    hide Inv;
  }

  /** Accounting thread `i`'s header takes it off the lists and leaves the rest. */
  lemma OneAccounted(s: State, b: Book, i: Thread, t: Token)
    requires Inv(s) && i in Writing(s, b, t)
    ensures Enabled(s, Account(i))
    ensures var s', b' := Apply(s, Account(i)), Turn(s, b, Account(i));
            && Writing(s', b', t) == Writing(s, b, t) - {i} && Replacing(s', b', t) == Replacing(s, b, t) - {i}
            && Owned(s', b', t) == Owned(s, b, t) && Freed(s', b', t) == Freed(s, b, t)
  {
    assert Enabled(s, Account(i));
    AccountEffect(s, b, i);
    ListsAfter(s, b, Apply(s, Account(i)), Turn(s, b, Account(i)), i, t);
  }

  lemma ListsAfter(s: State, b: Book, s': State, b': Book, i: Thread, t: Token)
    requires i in Writing(s, b, t)
    requires s'.threads == s.threads[i := Outside] && s'.blocks == s.blocks
    requires b'.sizes == b.sizes && b'.requests == b.requests
    ensures Writing(s', b', t) == Writing(s, b, t) - {i} && Replacing(s', b', t) == Replacing(s, b, t) - {i}
    ensures Owned(s', b', t) == Owned(s, b, t) && Freed(s', b', t) == Freed(s, b, t)
  {
    SameAsked(b, b');
    WritingAfter(s, b, s', b', i, t);
    ReplacingAfter(s, b, s', b', i, t);
    OthersAfter(s, b, s', b', i, t);
  }

  lemma OthersAfter(s: State, b: Book, s': State, b': Book, i: Thread, t: Token)
    requires i in s.threads && s.threads[i].Written? && s'.threads == s.threads[i := Outside] && s'.blocks == s.blocks
    requires (forall j :: Asked(b', j) == Asked(b, j)) && forall x :: SizeOf(b', x) == SizeOf(b, x)
    ensures Owned(s', b', t) == Owned(s, b, t) && Freed(s', b', t) == Freed(s, b, t)
  {
    hide WasSize, Asked, SizeOf;
  }

  lemma SameAsked(b: Book, b': Book)
    requires b'.sizes == b.sizes && b'.requests == b.requests
    ensures (forall j :: Asked(b', j) == Asked(b, j)) && forall x :: SizeOf(b', x) == SizeOf(b, x)
  {
  }

  lemma WritingAfter(s: State, b: Book, s': State, b': Book, i: Thread, t: Token)
    requires i in Writing(s, b, t) && s'.threads == s.threads[i := Outside]
    requires forall j :: Asked(b', j) == Asked(b, j)
    ensures Writing(s', b', t) == Writing(s, b, t) - {i}
  {
    hide Asked;
  }

  lemma ReplacingAfter(s: State, b: Book, s': State, b': Book, i: Thread, t: Token)
    requires s'.threads == s.threads[i := Outside]
    requires forall j :: Asked(b', j) == Asked(b, j)
    ensures Replacing(s', b', t) == Replacing(s, b, t) - {i}
  {
    hide Asked, PaidBefore, WasSize;
  }

  /** Accounting one header moves its new size, and its old one, from the lists to the counters. */
  lemma AddedUpBefore(
    c: Counters, c': Counters, owned: map<nat, nat>, writing: map<nat, nat>, replacing: map<nat, nat>,
    freed: map<nat, nat>, i: Thread)
    requires i in writing && AddsUp(c', owned, writing - {i}, replacing - {i}, freed)
    requires c'.bytes == c.bytes - (if i in replacing then replacing[i] else 0) + writing[i]
    requires c'.allocs == c.allocs + (if i in replacing then 0 else 1)
    ensures AddsUp(c, owned, writing, replacing, freed)
  {
    hide Total;
    TakenOff(writing, i);
    TakenOff(replacing, i);
  }

  /** What accounting thread `i`'s header does to the charges on its token. */
  lemma ChargesAfter(s: State, b: Book, b': Book, i: Thread, t: Token)
    requires i in Writing(s, b, t) && RequestKept(s, b, i, s.threads[i])
    requires b'.charged == b.charged[s.threads[i].q := Charge(t, Asked(b, i).size)] && b'.due == b.due
    ensures var c, c', w, r := ChargesOn(b, t), ChargesOn(b', t), Writing(s, b, t), Replacing(s, b, t);
            && c'.bytes == c.bytes - (if i in r then r[i] else 0) + w[i]
            && c'.allocs == c.allocs + (if i in r then 0 else 1)
  {
    WritingMember(s, b, i, t);
    hide Sum, Number, Writing, Replacing, Asked;
    OfAccounted(b.charged, s.threads[i].q, Charge(t, Asked(b, i).size), t);
  }

  lemma WritingMember(s: State, b: Book, i: Thread, t: Token)
    requires i in Writing(s, b, t)
    ensures s.threads[i].Written? && s.threads[i].token == t && Writing(s, b, t)[i] == Asked(b, i).size
    ensures i in Replacing(s, b, t) <==> PaidBefore(Asked(b, i), t).Some?
    ensures i in Replacing(s, b, t) ==> Replacing(s, b, t)[i] == WasSize(Asked(b, i))
  {
  }

  // ---- whole runs ----------------------------------------------------------------------------

  ghost predicate TurnAt(states: seq<State>, books: seq<Book>, trace: seq<Action>, k: nat)
    requires |states| == |books| == |trace| + 1 && k < |trace|
  {
    && Enabled(states[k], trace[k]) && books[k + 1] == Turn(states[k], books[k], trace[k])
    && Unsaturated(states[k], books[k], trace[k])
  }

  /** The books of a run in which no counter reaches its saturation point. */
  ghost predicate Accounted(states: seq<State>, books: seq<Book>, trace: seq<Action>) {
    && |states| == |books| == |trace| + 1 && books[0] == BLANK
    && forall k :: 0 <= k < |trace| ==> TurnAt(states, books, trace, k)
  }

  lemma BlankInv()
    ensures BookInv(EMPTY, BLANK)
  {
  }

  lemma {:induction false} RunBook(states: seq<State>, books: seq<Book>, trace: seq<Action>, k: nat)
    requires Run(states, trace) && Accounted(states, books, trace) && k < |states|
    ensures BookInv(states[k], books[k])
  {
    hide BookInv, Inv;
    if k == 0 {
      BlankInv();
    } else {
      RunBook(states, books, trace, k - 1);
      RunInv(states, trace, k - 1);
      assert StepAt(states, trace, k - 1) && TurnAt(states, books, trace, k - 1);
      BookKept(states[k - 1], books[k - 1], trace[k - 1]);
    }
  }

  /** No call is between writing a header of `t` and accounting it, or between freeing a block and releasing it. */
  predicate AtRest(s: State, t: Token) {
    forall i :: i in s.threads ==>
      (s.threads[i].Written? ==> s.threads[i].token != t) && (s.threads[i].Dropping? ==> s.threads[i].token != t)
  }

  /**
   * Conservation in every interleaving, absent saturation: a live cell's counters are the sizes and
   * the number of the blocks its token owns, with the headers still to be accounted taken off at
   * their new size and put back at the size already paid, and the blocks freed but not yet released
   * added. With no such call under way on the token they are exactly the owned blocks. What a lock
   * section subtracts is always there, so nothing saturates from below.
   */
  lemma ChargeConservation(states: seq<State>, books: seq<Book>, trace: seq<Action>, k: nat, t: Token)
    requires Run(states, trace) && Accounted(states, books, trace) && k < |states| && IsLive(states[k], t)
    ensures t in books[k].live && InFlightLaw(states[k], books[k], t, books[k].live[t])
    ensures AtRest(states[k], t) ==>
              books[k].live[t] == Counters(Total(Owned(states[k], books[k], t)), |Owned(states[k], books[k], t)|)
    ensures k < |trace| && Touched(states[k], trace[k]) == Some(t) ==>
              && Enabled(states[k], trace[k])
              && Subtracted(states[k], books[k], trace[k]).bytes <= books[k].live[t].bytes
              && Subtracted(states[k], books[k], trace[k]).allocs <= books[k].live[t].allocs
  {
    var s, b := states[k], books[k];
    RunBook(states, books, trace, k);
    RunInv(states, trace, k);
    assert Balanced(s, b, t);
    ChargesInFlight(s, b, t);
    if AtRest(s, t) {
      assert Writing(s, b, t) == map[] && Replacing(s, b, t) == map[] && Freed(s, b, t) == map[];
    }
    if k < |trace| && Touched(s, trace[k]) == Some(t) {
      assert TurnAt(states, books, trace, k);
      NeverBelowZero(s, b, trace[k]);
    }
  }
}
