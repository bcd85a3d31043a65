/**
 * The allocator behind every interpreter heap (alloc.zig:96-448), one call at a time: who pays for a
 * block, what a refused request leaves alone, and that the books always balance.
 */
module Allocation {
  import opened BigEndian
  import opened Ledger
  import opened Results

  /** A block behind its user pointer. The header's size field is the length of the data. */
  datatype Block = Block(owner: OwnerToken?, data: Bytes)

  type Blocks = map<nat, Block>

  predicate Fits(cap: Option<nat>, bytes: nat) {
    cap.Some? ==> bytes <= cap.value
  }

  /** The sticky breaches of a cell. */
  datatype Breached = Breached(hard: bool, soft: bool)

  /**
   * What the caps say of a request that would leave `bytes` live: the hard cap before the soft one, a
   * cap of maxInt being none. A breach is latched, and nothing else refuses a request that fits the
   * address space before the backing allocator is asked.
   */
  predicate CapsDecide(
    was: Breached, now: Breached, hardCap: Option<nat>, softCap: Option<nat>, bytes: nat, fits: bool, served: bool,
    asked: bool)
  {
    var hard := hardCap.Some? && hardCap.value < U64 - 1 && bytes > hardCap.value;
    var soft := softCap.Some? && softCap.value < U64 - 1 && bytes > softCap.value;
    && (served ==> fits && !was.hard && !hard && !soft)
    && (!served && !asked ==> !fits || was.hard || hard || soft)
    && (now.hard <==> was.hard || (fits && hard))
    && (now.soft <==> was.soft || (fits && !was.hard && !hard && soft))
  }

  lemma Undecided(now: Breached, hardCap: Option<nat>, softCap: Option<nat>, bytes: nat)
    ensures CapsDecide(now, now, hardCap, softCap, bytes, false, false, false)
  {
  }

  /** An accepted request that the backing allocator then fails was no matter of the caps. */
  lemma StillDecided(
    was: Breached, now: Breached, hardCap: Option<nat>, softCap: Option<nat>, bytes: nat, served: bool)
    requires CapsDecide(was, now, hardCap, softCap, bytes, true, true, false)
    ensures CapsDecide(was, now, hardCap, softCap, bytes, true, served, true)
  {
  }

  /** Saturation never hides a breach. */
  lemma ProjectionFits(cap: Option<nat>, live: nat, size: nat)
    ensures Fits(cap, SaturatingAdd(live, size)) <==>
            !(cap.Some? && cap.value < U64 - 1 && live + size > cap.value)
  {
  }

  class IsolateCell {
    var liveBytes: nat
    var liveAllocs: nat
    var peakBytes: nat
    var softCap: Option<nat>
    var hardCap: Option<nat>
    var softOom: bool
    var hardOom: bool
    var token: OwnerToken?

    constructor (softCap: Option<nat>, hardCap: Option<nat>)
      ensures token == null && liveBytes == 0 && liveAllocs == 0 && peakBytes == 0 && !softOom && !hardOom
      ensures this.softCap == softCap && this.hardCap == hardCap
    {
      liveBytes, liveAllocs, peakBytes := 0, 0, 0;
      softOom, hardOom := false, false;
      token := null;
      this.softCap, this.hardCap := softCap, hardCap;
    }

    /** projectedLive. */
    function Projected(owner: OwnerToken, was: Option<Block>, size: nat): nat
      reads this
    {
      SaturatingAdd(
        if was.Some? && was.value.owner == owner then SaturatingSub(liveBytes, |was.value.data|) else liveBytes, size)
    }

    predicate Admits(owner: OwnerToken, was: Option<Block>, size: nat)
      reads this
    {
      !hardOom && Fits(hardCap, Projected(owner, was, size)) && Fits(softCap, Projected(owner, was, size))
    }
  }

  class OwnerToken {
    var cell: IsolateCell?
    var refs: nat

    constructor (cell: IsolateCell)
      ensures this.cell == cell && refs == 1
    {
      this.cell, refs := cell, 1;
    }

    /** Check the caps, record a breach, and take the reference a new header will own. */
    method Prepare(was: Option<Block>, size: nat, acquire: bool) returns (accepted: bool)
      modifies this, cell
      ensures cell == old(cell)
      ensures accepted == (cell == null || old(cell.Admits(this, was, size)))
      ensures refs == old(refs) + if accepted && acquire then 1 else 0
      ensures cell != null ==> unchanged(cell`liveBytes, cell`liveAllocs, cell`peakBytes, cell`softCap, cell`hardCap,
                                         cell`token)
      ensures cell != null ==>
                && cell.hardOom == old(cell.hardOom || !Fits(cell.hardCap, cell.Projected(this, was, size)))
                && cell.softOom == old(cell.softOom
                                       || (!cell.hardOom && Fits(cell.hardCap, cell.Projected(this, was, size))
                                                        && !Fits(cell.softCap, cell.Projected(this, was, size))))
    {
      accepted := true;
      if cell != null {
        if cell.hardOom {
          accepted := false;
        } else {
          var projected := cell.Projected(this, was, size);
          if !Fits(cell.hardCap, projected) {
            cell.hardOom := true;
            accepted := false;
          }
          if accepted && !Fits(cell.softCap, projected) {
            cell.softOom := true;
            accepted := false;
          }
        }
      }
      if accepted && acquire {
        refs := refs + 1;
      }
    }

    method AccountNew(size: nat)
      modifies cell
      ensures cell != null ==>
                && unchanged(cell`softOom, cell`hardOom, cell`softCap, cell`hardCap, cell`token)
                && cell.liveBytes == SaturatingAdd(old(cell.liveBytes), size)
                && cell.liveAllocs == SaturatingAdd(old(cell.liveAllocs), 1)
                && cell.peakBytes ==
                   if cell.liveBytes > old(cell.peakBytes) then cell.liveBytes else old(cell.peakBytes)
    {
      if cell == null {
        return;
      }
      cell.liveBytes := SaturatingAdd(cell.liveBytes, size);
      cell.liveAllocs := SaturatingAdd(cell.liveAllocs, 1);
      if cell.liveBytes > cell.peakBytes {
        cell.peakBytes := cell.liveBytes;
      }
    }

    method AccountResize(was: Block, size: nat)
      modifies cell
      ensures cell != null ==>
                && unchanged(cell`softOom, cell`hardOom, cell`softCap, cell`hardCap, cell`token)
                && cell.liveBytes == (if was.owner == this
                                      then SaturatingAdd(SaturatingSub(old(cell.liveBytes), |was.data|), size)
                                      else SaturatingAdd(old(cell.liveBytes), size))
                && cell.liveAllocs == (if was.owner == this then old(cell.liveAllocs)
                                       else SaturatingAdd(old(cell.liveAllocs), 1))
                && cell.peakBytes ==
                   if cell.liveBytes > old(cell.peakBytes) then cell.liveBytes else old(cell.peakBytes)
    {
      if cell == null {
        return;
      }
      if was.owner == this {
        cell.liveBytes := SaturatingAdd(SaturatingSub(cell.liveBytes, |was.data|), size);
      } else {
        cell.liveBytes := SaturatingAdd(cell.liveBytes, size);
        cell.liveAllocs := SaturatingAdd(cell.liveAllocs, 1);
      }
      if cell.liveBytes > cell.peakBytes {
        cell.peakBytes := cell.liveBytes;
      }
    }

    /** Drop one reference; `destroy` says it was the last. */
    method Release(accountFree: bool, size: nat) returns (destroy: bool)
      requires refs > 0
      modifies this`refs, cell
      ensures refs == old(refs) - 1 && destroy == (refs == 0)
      ensures cell != null ==>
                && unchanged(cell`softOom, cell`hardOom, cell`softCap, cell`hardCap, cell`token, cell`peakBytes)
                && cell.liveBytes == (if accountFree then SaturatingSub(old(cell.liveBytes), size)
                                      else old(cell.liveBytes))
                && cell.liveAllocs == (if accountFree then SaturatingSub(old(cell.liveAllocs), 1)
                                       else old(cell.liveAllocs))
    {
      if accountFree && cell != null {
        cell.liveBytes := SaturatingSub(cell.liveBytes, size);
        cell.liveAllocs := SaturatingSub(cell.liveAllocs, 1);
      }
      refs := refs - 1;
      destroy := refs == 0;
    }

    method Retire() returns (destroy: bool)
      requires refs > 0
      modifies this
      ensures cell == null && refs == old(refs) - 1 && destroy == (refs == 0)
    {
      cell := null;
      refs := refs - 1;
      destroy := refs == 0;
    }
  }

  // ---- the books -----------------------------------------------------------------------------

  ghost function SizesOf(blocks: Blocks, t: OwnerToken?): map<nat, nat> {
    map a | a in blocks && blocks[a].owner == t :: |blocks[a].data|
  }

  /** What the blocks `t` owns add up to. */
  ghost function Charge(blocks: Blocks, t: OwnerToken?): nat {
    Total(SizesOf(blocks, t))
  }

  ghost function Count(blocks: Blocks, t: OwnerToken?): nat {
    |SizesOf(blocks, t)|
  }

  ghost function AllSizes(blocks: Blocks): map<nat, nat> {
    map a | a in blocks :: |blocks[a].data|
  }

  lemma BlockRemoved(blocks: Blocks, a: nat, t: OwnerToken?)
    requires a in blocks
    ensures Charge(blocks, t) == Charge(blocks - {a}, t) + (if blocks[a].owner == t then |blocks[a].data| else 0)
    ensures Count(blocks, t) == Count(blocks - {a}, t) + (if blocks[a].owner == t then 1 else 0)
  {
    var before, after := SizesOf(blocks, t), SizesOf(blocks - {a}, t);
    if blocks[a].owner == t {
      assert before - {a} == after;
      TotalWithout(before, a);
      Removed(before, a);
    } else {
      assert before == after;
    }
  }

  /** What serving a request does to the charge of its owner. */
  lemma ServedCharge(was: Blocks, now: Blocks, p: Option<nat>, q: nat, t: OwnerToken?, size: nat)
    requires (p.Some? ==> p.value in was) && q !in Without(was, p) && q in now && now == Without(was, p)[q := now[q]]
    requires now[q].owner == t && |now[q].data| == size
    ensures var replaced := p.Some? && was[p.value].owner == t;
            && Charge(now, t) == Charge(was, t) + size - (if replaced then |was[p.value].data| else 0)
            && Count(now, t) == Count(was, t) + (if replaced then 0 else 1)
  {
    hide Charge, Count;
    if p.Some? {
      BlockRemoved(was, p.value, t);
    }
    BlockRemoved(now, q, t);
    assert now - {q} == Without(was, p);
  }

  lemma BlockRemovedFor(blocks: Blocks, a: nat, tokens: set<OwnerToken>)
    requires a in blocks
    ensures forall t :: t in tokens ==>
              && Charge(blocks, t) == Charge(blocks - {a}, t) + (if blocks[a].owner == t then |blocks[a].data| else 0)
              && Count(blocks, t) == Count(blocks - {a}, t) + (if blocks[a].owner == t then 1 else 0)
  {
    hide Charge, Count;
    forall t | t in tokens
      ensures Charge(blocks, t) == Charge(blocks - {a}, t) + (if blocks[a].owner == t then |blocks[a].data| else 0)
      ensures Count(blocks, t) == Count(blocks - {a}, t) + (if blocks[a].owner == t then 1 else 0)
    {
      BlockRemoved(blocks, a, t);
    }
  }

  lemma AllRemoved(blocks: Blocks, a: nat)
    requires a in blocks
    ensures Total(AllSizes(blocks)) == Total(AllSizes(blocks - {a})) + |blocks[a].data|
    ensures |blocks| == |blocks - {a}| + 1
  {
    var before, after := AllSizes(blocks), AllSizes(blocks - {a});
    assert before - {a} == after;
    TotalWithout(before, a);
    assert (blocks - {a}).Keys == blocks.Keys - {a};
    assert |(blocks - {a}).Keys| == |blocks.Keys| - 1;
  }

  lemma ChargeBounded(blocks: Blocks, t: OwnerToken?)
    ensures Charge(blocks, t) <= Total(AllSizes(blocks)) && Count(blocks, t) <= |blocks|
  {
    TotalOfPart(SizesOf(blocks, t), AllSizes(blocks));
    assert AllSizes(blocks).Keys == blocks.Keys;
    assert |AllSizes(blocks).Keys| == |blocks.Keys|;
  }

  function Without(blocks: Blocks, from: Option<nat>): Blocks {
    if from.Some? then blocks - {from.value} else blocks
  }

  function SizeAt(blocks: Blocks, from: Option<nat>): nat
    requires from.Some? ==> from.value in blocks
  {
    if from.Some? then |blocks[from.value].data| else 0
  }

  /** The bytes and the number of blocks that freeing `from` takes off `t`. */
  function Share(blocks: Blocks, from: Option<nat>, t: OwnerToken?): (int, int)
    requires from.Some? ==> from.value in blocks
  {
    if from.Some? && blocks[from.value].owner == t then (|blocks[from.value].data|, 1) else (0, 0)
  }

  // ---- the allocator -------------------------------------------------------------------------

  /** The first bytes of a resized block are the old ones; the rest is not initialized. */
  predicate Resized(was: Bytes, now: Bytes) {
    var kept := if |was| <= |now| then |was| else |now|;
    now[..kept] == was[..kept]
  }

  /** The backing allocator's answers, call by call: where a block may go, and what fills new bytes. */
  datatype Backing = Backing(remap: nat -> Option<nat>, alloc: nat -> Option<nat>, fill: (nat, nat) -> byte)

  class Allocator {
    const backing: Backing
    var calls: nat
    var blocks: Blocks
    var current: IsolateCell?
    var liveBytes: nat
    var liveAllocs: nat
    var backingFailures: nat
    ghost var tokens: set<OwnerToken>
    ghost var cells: set<IsolateCell>

    /** Token `t`'s references, and its cell's bytes and blocks, exceed what its headers show by these. */
    ghost predicate Off(t: OwnerToken, refs: int, bytes: int, allocs: int)
      reads this, t, t.cell
    {
      && t.refs == Count(blocks, t) + (if t.cell != null then 1 else 0) + refs
      && (t.cell != null ==>
            && t.cell in cells && t.cell.token == t
            && t.cell.liveBytes == Charge(blocks, t) + bytes && t.cell.liveAllocs == Count(blocks, t) + allocs
            && t.cell.liveBytes <= t.cell.peakBytes)
    }

    ghost predicate HeadersValid()
      reads this
    {
      forall a :: a in blocks ==> |blocks[a].data| > 0 && (blocks[a].owner != null ==> blocks[a].owner in tokens)
    }

    /** All books balance, except that `debtor`'s are off by the given amounts, between two lock sections. */
    ghost predicate Books(debtor: OwnerToken?, refs: int, bytes: int, allocs: int)
      reads this, tokens, cells, set t | t in tokens :: t.cell
    {
      && HeadersValid()
      && (forall t :: t in tokens ==>
            if t == debtor then Off(t, refs, bytes, allocs) else Off(t, 0, 0, 0) && t.refs > 0)
      && (forall c :: c in cells && c.token != null ==> c.token in tokens && c.token.cell == c)
      && (current != null ==> current in cells)
      && liveBytes == Total(AllSizes(blocks)) && liveAllocs == |blocks|
      && liveBytes + HEADER_BYTES * liveAllocs < U64
    }

    /** Every book balances, and every reference is accounted for. */
    ghost predicate Valid()
      reads this, tokens, cells, set t | t in tokens :: t.cell
    {
      Books(null, 0, 0, 0)
    }

    constructor (backing: Backing)
      ensures Valid() && blocks == map[] && tokens == {} && cells == {} && current == null
    {
      this.backing := backing;
      calls, liveBytes, liveAllocs, backingFailures := 0, 0, 0, 0;
      blocks, current := map[], null;
      tokens, cells := {}, {};
      new;
      assert AllSizes(blocks) == map[];
    }

    /**
     * initOwnership, `room` saying whether a token can be had: the books balance afterwards exactly
     * when the cell brings no charge of an earlier life.
     */
    method InitOwnership(cell: IsolateCell, room: bool) returns (result: Result<()>)
      requires Valid() && cell.token == null
      modifies this`tokens, this`cells, cell`token
      ensures result == if room then Ok(()) else Err(OutOfMemory)
      ensures blocks == old(blocks) && (!room ==> Valid() && unchanged(this, cell))
      ensures room ==>
                && (Valid() <==> cell.liveBytes == 0 && cell.liveAllocs == 0)
                && cells == old(cells) + {cell} && tokens == old(tokens) + {cell.token}
                && cell.token != null && fresh(cell.token) && cell.token.cell == cell && cell.token.refs == 1
    {
      hide Charge, Count, AllSizes;
      if !room {
        return Err(OutOfMemory);
      }
      var token := new OwnerToken(cell);
      FreshOwnsNothing(blocks, token);
      cell.token := token;
      tokens := tokens + {token};
      cells := cells + {cell};
      result := Ok(());
    }

    /** retireOwnership: the token outlives the cell for as long as some header names it. */
    method RetireOwnership(cell: IsolateCell)
      requires Valid() && cell in cells
      modifies this`tokens, cell`token, cell.token
      ensures Valid() && cell.token == null && blocks == old(blocks) && cells == old(cells)
      ensures old(cell.token) != null ==>
                && old(cell.token).cell == null
                && tokens ==
                   (if Count(blocks, old(cell.token)) == 0 then old(tokens) - {old(cell.token)} else old(tokens))
    {
      hide Charge, Count, AllSizes;
      var token := cell.token;
      if token == null {
        return;
      }
      cell.token := null;
      var destroy := token.Retire();
      if destroy {
        NoHeaderNames(blocks, token);
        tokens := tokens - {token};
      }
    }

    /** pushIsolate: the guard remembers whom to give attribution back to. */
    method PushIsolate(cell: IsolateCell) returns (previous: IsolateCell?)
      requires Valid() && cell in cells && cell.token != null
      modifies this`current
      ensures Valid() && current == cell && previous == old(current)
    {
      previous := current;
      current := cell;
    }

    /** restoreIsolate. */
    method RestoreIsolate(installed: IsolateCell, previous: IsolateCell?)
      requires Valid() && current == installed && (previous != null ==> previous in cells)
      modifies this`current
      ensures Valid() && current == previous
    {
      current := previous;
    }

    /** A token already named by the header pays again; only then does the current cell pay. */
    function OwnerFor(p: Option<nat>): OwnerToken?
      requires p.Some? ==> p.value in blocks
      reads this, current
    {
      var running := if current != null then current.token else null;
      if p.Some? && blocks[p.value].owner != null then blocks[p.value].owner else running
    }

    /** The `size == 0` half of mrb_basic_alloc_func. */
    method Free(a: nat)
      requires Valid() && a in blocks
      modifies this`blocks, this`liveBytes, this`liveAllocs, this`tokens, tokens, cells
      ensures Valid() && blocks == old(blocks) - {a}
      ensures tokens == Surviving(old(tokens), blocks)
      ensures OomKept(cells)
    {
      hide Charge, Count, AllSizes, Valid, Books;
      var size, token := |blocks[a].data|, blocks[a].owner;
      AnyDebtor(a, token);
      DropBlock(a, token, 0);
      if token != null {
        Settle(token, size);
      } else {
        Balanced(1, size, 1);
      }
    }

    lemma AnyDebtor(a: nat, t: OwnerToken?)
      requires Valid() && a in blocks && t == blocks[a].owner
      ensures Books(t, 0, 0, 0)
      ensures t != null ==> t in tokens && (t.cell != null ==> t.cell in cells)
    {
      hide Charge, Count, AllSizes;
    }

    lemma Balanced(refs: int, bytes: int, allocs: int)
      requires Books(null, refs, bytes, allocs)
      ensures Valid() && tokens == Surviving(tokens, blocks)
    {
      hide Charge, Count, AllSizes;
    }

    /** Give the memory back; the header's reference is now the caller's to drop or to reuse. */
    method DropBlock(a: nat, debtor: OwnerToken?, ghost refs: int)
      requires Books(debtor, refs, 0, 0) && a in blocks && (blocks[a].owner != null ==> blocks[a].owner == debtor)
      modifies this`blocks, this`liveBytes, this`liveAllocs
      ensures blocks == old(blocks) - {a} && liveAllocs == old(liveAllocs) - 1
      ensures liveBytes == old(liveBytes) - |old(blocks)[a].data|
      ensures var share := Share(old(blocks), Some(a), debtor); Books(debtor, refs + share.1, share.0, share.1)
    {
      hide Charge, Count, AllSizes;
      AllRemoved(blocks, a);
      BlockRemovedFor(blocks, a, tokens);
      liveBytes := liveBytes - |blocks[a].data|;
      liveAllocs := liveAllocs - 1;
      blocks := blocks - {a};
    }

    /** releaseAllocation, and forgetting the token if that was its last reference. */
    method Settle(token: OwnerToken, size: nat)
      requires token in tokens && Books(token, 1, size, 1)
      modifies this`tokens, token`refs, token.cell
      ensures Valid() && tokens == Surviving(old(tokens), blocks)
      ensures OomKept(cells)
    {
      hide Charge, Count, AllSizes;
      var destroy := Repay(token, size);
      if destroy {
        NoHeaderNames(blocks, token);
        tokens := tokens - {token};
      }
    }

    method Repay(token: OwnerToken, size: nat) returns (destroy: bool)
      requires token in tokens && Books(token, 1, size, 1)
      modifies token`refs, token.cell
      ensures if destroy then Count(blocks, token) == 0 && token.cell == null else Off(token, 0, 0, 0) && token.refs > 0
      ensures unchanged(token`cell)
      ensures token.cell != null ==> unchanged(token.cell`token, token.cell`hardOom, token.cell`softOom)
    {
      hide Charge, Count, AllSizes;
      assert Off(token, 1, size, 1);
      destroy := token.Release(true, size);
    }

    /** What a request for `size` bytes at `p` may answer. */
    twostate predicate Answered(p: Option<nat>, size: nat, new result: Option<nat>)
      requires old(p.Some? ==> p.value in blocks)
      reads this
    {
      var rest := Without(old(blocks), p);
      match result
      case None => blocks == if size == 0 then rest else old(blocks)
      case Some(q) =>
        && size > 0 && q !in rest && q in blocks && blocks == rest[q := blocks[q]]
        && blocks[q].owner == old(OwnerFor(p)) && |blocks[q].data| == size
        && (p.Some? ==> Resized(old(blocks)[p.value].data, blocks[q].data))
    }

    /** What refusing or serving a request means for the cell that would pay. */
    twostate predicate Charged(owner: OwnerToken?, was: Option<Block>, size: nat, served: bool)
      reads this, owner, if owner != null then {owner.cell} else {}
    {
      owner != null && owner.cell != null && old(owner.cell) == owner.cell ==>
        if served then
          && old(owner.cell.Admits(owner, was, size))
          && Fits(owner.cell.hardCap, owner.cell.liveBytes) && Fits(owner.cell.softCap, owner.cell.liveBytes)
        else !old(owner.cell.Admits(owner, was, size)) && size + HEADER_BYTES < U64 ==>
               owner.cell.hardOom || owner.cell.softOom
    }

    function Breaches(c: IsolateCell): Breached
      reads c
    {
      Breached(c.hardOom, c.softOom)
    }

    /** A request that concerns the running isolate: it has a token, and the block is new or unowned. */
    predicate Running(p: Option<nat>)
      requires p.Some? ==> p.value in blocks
      reads this, current
    {
      current != null && current.token != null && (p.None? || blocks[p.value].owner == null)
    }

    twostate predicate CapsDecided(p: Option<nat>, size: nat, served: bool, asked: bool)
      requires old(p.Some? ==> p.value in blocks) && current == old(current)
      reads this, current
    {
      old(Running(p)) ==>
        CapsDecide(old(Breaches(current)), Breaches(current), current.hardCap, current.softCap,
                   old(current.liveBytes) + size, size + HEADER_BYTES < U64, served, asked)
    }

    twostate predicate RefsKept(among: set<OwnerToken>)
      reads among
    {
      forall t :: t in among ==> t.refs == old(t.refs) && t.cell == old(t.cell)
    }

    twostate predicate LedgersKept(among: set<IsolateCell>)
      reads among
    {
      forall c :: c in among ==> unchanged(c`liveBytes, c`liveAllocs, c`peakBytes, c`softCap, c`hardCap, c`token)
    }

    /** The lock section that checks caps and takes a reference. */
    method Borrow(owner: OwnerToken?, was: Option<Block>, size: nat, acquire: bool) returns (accepted: bool)
      requires Valid() && (owner != null ==> owner in tokens) && (acquire ==> owner != null)
      modifies owner, if owner != null then {owner.cell} else {}
      ensures Books(owner, if accepted && acquire then 1 else 0, 0, 0)
      ensures owner != null ==>
                owner.cell == old(owner.cell) && owner.refs == old(owner.refs) + if accepted && acquire then 1 else 0
      ensures owner == null ==> accepted
      ensures owner != null ==> accepted == (owner.cell == null || old(owner.cell.Admits(owner, was, size)))
      ensures accepted && owner != null && owner.cell != null ==> owner.cell.Admits(owner, was, size)
      ensures LedgersKept(cells) && OomKept(cells)
      ensures !accepted ==> owner.cell.hardOom || owner.cell.softOom
      ensures owner != null && owner.cell != null && (was.None? || was.value.owner == null) ==>
                CapsDecide(old(Breaches(owner.cell)), Breaches(owner.cell), owner.cell.hardCap, owner.cell.softCap,
                           old(owner.cell.liveBytes) + size, true, accepted, false)
    {
      hide Charge, Count, AllSizes;
      accepted := true;
      if owner != null {
        assert Off(owner, 0, 0, 0);
        if owner.cell != null {
          ProjectionFits(owner.cell.hardCap, owner.cell.liveBytes, size);
          ProjectionFits(owner.cell.softCap, owner.cell.liveBytes, size);
        }
        accepted := owner.Prepare(was, size, acquire);
      }
    }

    /** releaseUncommitted. The token cannot go: its cell or another header still holds it. */
    method GiveBack(owner: OwnerToken)
      requires owner in tokens && Books(owner, 1, 0, 0) && owner.refs > 1
      modifies owner`refs, owner.cell
      ensures Valid() && LedgersKept(cells) && OomKept(cells)
      ensures owner.refs == old(owner.refs) - 1 && owner.cell == old(owner.cell)
      ensures owner.cell != null ==> unchanged(owner.cell`hardOom, owner.cell`softOom, owner.cell`token)
    {
      hide Charge, Count, AllSizes;
      assert Off(owner, 1, 0, 0);
      var _ := owner.Release(false, 0);
    }

    /** rawRemap's answer to this call, if there is one: in place, or moved clear of every other block. */
    function InPlace(p: Option<nat>, total: nat): Option<nat>
      requires p.Some? ==> p.value in blocks
      reads this
    {
      var q := backing.remap(calls);
      if p.Some? && q.Some? && q.value !in Without(blocks, p)
         && liveBytes + HEADER_BYTES * liveAllocs + total < U64 + SizeAt(blocks, p) + HEADER_BYTES
      then q else None
    }

    /** rawAlloc's: memory that overlaps no block and fits the address space beside them. */
    function Elsewhere(total: nat): Option<nat>
      reads this
    {
      var q := backing.alloc(calls);
      if q.Some? && q.value !in blocks && liveBytes + HEADER_BYTES * liveAllocs + total < U64 then q else None
    }

    /** rawRemap first, and rawAlloc only where that declines; only the second counts as a failure. */
    method Place(p: Option<nat>, total: nat, ghost owner: OwnerToken?, ghost refs: nat) returns (q: Option<nat>)
      requires p.Some? ==> p.value in blocks
      requires Books(owner, refs, 0, 0)
      modifies this`calls, this`backingFailures
      ensures Books(owner, refs, 0, 0)
      ensures calls == old(calls) + 1
      ensures q == if InPlace(p, total).Some? then InPlace(p, total) else Elsewhere(total)
      ensures backingFailures == if q.None? then SaturatingAdd(old(backingFailures), 1) else old(backingFailures)
      ensures q.Some? ==>
                && q.value !in Without(blocks, p)
                && liveBytes + HEADER_BYTES * liveAllocs + total
                   - (SizeAt(blocks, p) + if p.Some? then HEADER_BYTES else 0) < U64
    {
      hide Charge, Count, AllSizes, Total;
      calls := calls + 1;
      q := InPlace(p, total);
      if q.Some? {
        return;
      }
      q := Elsewhere(total);
      if q.None? {
        backingFailures := SaturatingAdd(backingFailures, 1);
      }
    }

    /** The new block's bytes: as much of the old as fits, then whatever the backing memory held. */
    function NewData(was: Option<Block>, size: nat): (data: Bytes)
      reads this
      ensures |data| == size && (was.Some? ==> Resized(was.value.data, data))
    {
      var fill: (nat, nat) -> byte, call := backing.fill, calls;
      var kept: Bytes :=
        if was.None? then [] else if |was.value.data| <= size then was.value.data else was.value.data[..size];
      var added: Bytes := seq(size - |kept|, i requires 0 <= i < size - |kept| => fill(call, i));
      kept + added
    }

    /** Write the header and move the process-wide counters; the owner's cell is charged next. */
    method Install(p: Option<nat>, q: nat, b: Block, ghost acquired: nat)
      requires p.Some? ==> p.value in blocks
      requires Books(b.owner, acquired, 0, 0) && (b.owner != null ==> b.owner in tokens)
      requires |b.data| > 0 && q !in Without(blocks, p)
      requires p.Some? && blocks[p.value].owner != null ==> b.owner == blocks[p.value].owner
      requires acquired == if b.owner != null && (p.None? || blocks[p.value].owner == null) then 1 else 0
      requires liveBytes + HEADER_BYTES * liveAllocs + |b.data| + HEADER_BYTES
               - (SizeAt(blocks, p) + if p.Some? then HEADER_BYTES else 0) < U64
      modifies this`blocks, this`liveBytes, this`liveAllocs
      ensures blocks == Without(old(blocks), p)[q := b]
      ensures b.owner != null ==>
                && Books(b.owner, 0, old(Share(blocks, p, b.owner)).0 - |b.data|, old(Share(blocks, p, b.owner)).1 - 1)
                && Charge(blocks, b.owner) >= |b.data| && Count(blocks, b.owner) > 0
      ensures b.owner == null ==> Valid()
    {
      hide Charge, Count, AllSizes, HeadersValid, Off, Books;
      ghost var share := Share(blocks, p, b.owner);
      if p.Some? {
        DropBlock(p.value, b.owner, acquired);
      }
      AddBlock(q, b, acquired + share.1, share.0, share.1);
      if b.owner == null {
        Balanced(acquired + share.1 - 1, share.0 - |b.data|, share.1 - 1);
      }
    }

    method AddBlock(q: nat, b: Block, ghost refs: int, ghost bytes: int, ghost allocs: int)
      requires Books(b.owner, refs, bytes, allocs) && (b.owner != null ==> b.owner in tokens)
      requires |b.data| > 0 && q !in blocks
      requires liveBytes + HEADER_BYTES * liveAllocs + |b.data| + HEADER_BYTES < U64
      modifies this`blocks, this`liveBytes, this`liveAllocs
      ensures blocks == old(blocks)[q := b] && Books(b.owner, refs - 1, bytes - |b.data|, allocs - 1)
      ensures b.owner != null ==> Charge(blocks, b.owner) >= |b.data| && Count(blocks, b.owner) > 0
    {
      hide Charge, Count, AllSizes, Total;
      ghost var was := blocks;
      liveBytes := liveBytes + |b.data|;
      liveAllocs := liveAllocs + 1;
      blocks := blocks[q := b];
      assert blocks - {q} == was;
      AllRemoved(blocks, q);
      BlockRemovedFor(blocks, q, tokens);
    }

    /** accountNew or accountResize. */
    method Account(owner: OwnerToken, was: Option<Block>, size: nat)
      requires owner in tokens && Charge(blocks, owner) >= size && Count(blocks, owner) > 0
      requires Books(owner, 0, (if was.Some? && was.value.owner == owner then |was.value.data| else 0) - size,
                     (if was.Some? && was.value.owner == owner then 1 else 0) - 1)
      modifies owner.cell
      ensures Valid() && OomKept(cells)
      ensures owner.cell != null ==> unchanged(owner.cell`softCap, owner.cell`hardCap) && owner.cell.liveBytes < U64
      ensures owner.cell != null ==>
                owner.cell.liveBytes ==
                old(owner.cell.liveBytes) - (if was.Some? && was.value.owner == owner then |was.value.data| else 0)
                + size
      ensures owner.cell != null ==> unchanged(owner.cell`hardOom, owner.cell`softOom, owner.cell`token)
    {
      hide Charge, Count, AllSizes;
      ChargeBounded(blocks, owner);
      assert (Off(owner, 0, (if was.Some? && was.value.owner == owner then |was.value.data| else 0) - size,
                     (if was.Some? && was.value.owner == owner then 1 else 0) - 1));
      if was.None? {
        owner.AccountNew(size);
      } else {
        owner.AccountResize(was.value, size);
      }
    }

    /** mrb_basic_alloc_func. */
    method AllocFunc(p: Option<nat>, size: nat) returns (result: Option<nat>)
      requires Valid() && size < U64 && (p.Some? ==> p.value in blocks)
      modifies this, tokens, cells
      ensures Valid() && cells == old(cells) && current == old(current)
      ensures Answered(p, size, result)
      ensures size > 0 ==> tokens == old(tokens) && Charged(old(OwnerFor(p)), old(Looked(p)), size, result.Some?)
      ensures size > 0 && result.None? ==> LedgersKept(cells) && RefsKept(tokens)
      ensures size == 0 ==> tokens == Surviving(old(tokens), blocks)
      ensures OomKept(cells)
      ensures backingFailures ==
              if size > 0 && result.None? && calls > old(calls) then SaturatingAdd(old(backingFailures), 1)
              else old(backingFailures)
      ensures size > 0 && result.None? && calls == old(calls) ==>
                || size + 16 >= U64
                || old(OwnerFor(p) != null && OwnerFor(p).cell != null
                       && !OwnerFor(p).cell.Admits(OwnerFor(p), Looked(p), size))
      // Who pays: the header's own token if it has one, and otherwise the isolate running on this thread.
      ensures size > 0 && result.Some? ==>
                blocks[result.value].owner ==
                old(if p.Some? && blocks[p.value].owner != null then blocks[p.value].owner
                    else if current != null then current.token else null)
      // The running isolate's caps decide over new and adopted blocks, and a breach is latched.
      ensures size > 0 && old(Running(p)) ==>
                CapsDecide(old(Breaches(current)), Breaches(current), current.hardCap, current.softCap,
                           old(current.liveBytes) + size, size + 16 < U64, result.Some?, calls > old(calls))
      // What it is charged for them.
      ensures size > 0 && old(Running(p)) && result.Some? ==>
                && current.liveBytes == old(current.liveBytes) + size
                && current.liveAllocs == old(current.liveAllocs) + 1
      // A block that has an owner stays charged to that owner's cell, at its new size.
      ensures size > 0 && result.Some? && p.Some?
              && old(blocks[p.value].owner != null && blocks[p.value].owner.cell != null) ==>
                var payer := old(blocks[p.value].owner.cell);
                && payer.liveBytes == old(payer.liveBytes) - |old(blocks)[p.value].data| + size
                && payer.liveAllocs == old(payer.liveAllocs)
    {
      hide Charge, Count, AllSizes, Valid, Books, Resized, CapsDecide, Charged;
      result := None;
      if size == 0 {
        if p.Some? {
          Free(p.value);
        } else {
          AllNeeded();
        }
      } else {
        var payer := OwnerFor(p);
        ghost var was := blocks;
        OwnerKnown(p);
        PayerBooks(payer);
        if Running(p) {
          RunningPays(p);
        }
        result := Request(p, size, payer);
        if result.Some? {
          PayerBooks(payer);
          ServedCharge(was, blocks, p, result.value, payer, size);
        }
      }
    }

    /** A payer's counters are the sum and the count of its blocks. */
    lemma PayerBooks(payer: OwnerToken?)
      requires Valid()
      ensures payer != null && payer in tokens && payer.cell != null ==>
                && payer.cell.liveBytes == Charge(blocks, payer) && payer.cell.liveAllocs == Count(blocks, payer)
    {
      hide Charge, Count, AllSizes;
      if payer != null && payer in tokens {
        assert Off(payer, 0, 0, 0);
      }
    }

    /** The `size != 0` part. */
    method Request(p: Option<nat>, size: nat, owner: OwnerToken?) returns (result: Option<nat>)
      requires Valid() && 0 < size < U64 && (p.Some? ==> p.value in blocks) && owner == OwnerFor(p)
      modifies this`blocks, this`liveBytes, this`liveAllocs, this`calls, this`backingFailures,
               owner, if owner != null then {owner.cell} else {}
      ensures Answered(p, size, result)
      ensures Charged(owner, old(Looked(p)), size, result.Some?)
      ensures result.None? ==> LedgersKept(cells) && RefsKept(tokens)
      ensures OomKept(cells) && calls >= old(calls)
      ensures backingFailures ==
              if result.None? && calls > old(calls) then SaturatingAdd(old(backingFailures), 1)
              else old(backingFailures)
      ensures result.None? && calls == old(calls) ==>
                || size + HEADER_BYTES >= U64
                || old(owner != null && owner.cell != null && !owner.cell.Admits(owner, Looked(p), size))
      ensures CapsDecided(p, size, result.Some?, calls > old(calls))
      ensures owner != null ==> owner.cell == old(owner.cell)
      ensures Valid()
    {
      hide Charge, Count, AllSizes, Valid, Books, Resized, CapsDecide, Fits, IsolateCell.Admits, IsolateCell.Projected;
      RunningPays(p);
      result := None;
      if size + HEADER_BYTES >= U64 {
        if old(Running(p)) {
          Undecided(Breaches(current), current.hardCap, current.softCap, current.liveBytes + size);
        }
        return;
      }
      var was := Looked(p);
      var acquire := owner != null && (was.None? || was.value.owner == null);
      OwnerKnown(p);
      var accepted := Borrow(owner, was, size, acquire);
      if !accepted {
        Settled(owner);
        return;
      }
      result := Serve(p, size, owner, was, acquire);
      if old(Running(p)) {
        StillDecided(old(Breaches(current)), Breaches(current), current.hardCap, current.softCap,
                     old(current.liveBytes) + size, result.Some?);
      }
    }

    /** Find memory for an accepted request, or hand the reference back. */
    method Serve(p: Option<nat>, size: nat, owner: OwnerToken?, was: Option<Block>, acquire: bool)
      returns (result: Option<nat>)
      requires 0 < size && size + HEADER_BYTES < U64 && (p.Some? ==> p.value in blocks)
      requires was == Looked(p) && acquire == (owner != null && (was.None? || was.value.owner == null))
      requires Books(owner, if acquire then 1 else 0, 0, 0)
      requires owner != null ==> owner in tokens && owner.refs > if acquire then 1 else 0
      requires was.Some? && was.value.owner != null ==> was.value.owner == owner
      requires owner != null && owner.cell != null ==> owner.cell.Admits(owner, was, size)
      modifies this`blocks, this`liveBytes, this`liveAllocs, this`calls, this`backingFailures, owner,
               if owner != null then {owner.cell} else {}
      ensures Valid() && OomKept(cells) && calls > old(calls)
      ensures backingFailures == if result.None? then SaturatingAdd(old(backingFailures), 1) else old(backingFailures)
      ensures result.None? ==> blocks == old(blocks) && LedgersKept(cells)
      ensures result.None? && owner != null ==> owner.refs == old(owner.refs) - if acquire then 1 else 0
      ensures owner != null ==> owner.cell == old(owner.cell)
      ensures result.Some? ==>
                && result.value !in Without(old(blocks), p) && result.value in blocks
                && blocks == Without(old(blocks), p)[result.value := blocks[result.value]]
                && blocks[result.value].owner == owner && |blocks[result.value].data| == size
                && (was.Some? ==> Resized(was.value.data, blocks[result.value].data))
      ensures result.Some? && owner != null && owner.cell != null ==>
                && owner.cell.liveBytes < U64 && unchanged(owner.cell`softCap, owner.cell`hardCap)
                && Fits(owner.cell.hardCap, owner.cell.liveBytes) && Fits(owner.cell.softCap, owner.cell.liveBytes)
      ensures owner != null && owner.cell != null ==>
                unchanged(owner.cell`hardOom, owner.cell`softOom, owner.cell`token)
    {
      hide Charge, Count, AllSizes, Valid, Books, Resized;
      ghost var acquired := if acquire then 1 else 0;
      result := Place(p, size + HEADER_BYTES, owner, acquired);
      if result.None? {
        if acquire {
          GiveBack(owner);
        } else {
          Settled(owner);
        }
      } else {
        Install(p, result.value, Block(owner, NewData(was, size)), acquired);
        if owner != null {
          Account(owner, was, size);
        }
      }
    }

    function Looked(p: Option<nat>): Option<Block>
      reads this
    {
      if p.Some? && p.value in blocks then Some(blocks[p.value]) else None
    }

    lemma AllNeeded()
      requires Valid()
      ensures tokens == Surviving(tokens, blocks)
    {
      hide Charge, Count, AllSizes;
    }

    lemma Settled(owner: OwnerToken?)
      requires Books(owner, 0, 0, 0) && (owner != null ==> owner.refs > 0)
      ensures Valid()
    {
      hide Charge, Count, AllSizes;
    }

    lemma RunningPays(p: Option<nat>)
      requires Valid() && (p.Some? ==> p.value in blocks)
      ensures Running(p) ==> OwnerFor(p) == current.token && current.token.cell == current
    {
    }

    lemma OwnerKnown(p: Option<nat>)
      requires Valid() && (p.Some? ==> p.value in blocks)
      ensures var t := OwnerFor(p);
              t != null ==> t in tokens && t.refs > 0 && (t.cell != null ==> t.cell in cells)
    {
    }

    /** The tokens something still refers to. */
    ghost function Surviving(among: set<OwnerToken>, blocks: Blocks): set<OwnerToken>
      reads among
    {
      set t | t in among && (t.cell != null || Count(blocks, t) > 0)
    }

    twostate predicate OomKept(among: set<IsolateCell>)
      reads among
    {
      forall c :: c in among ==> (old(c.hardOom) ==> c.hardOom) && (old(c.softOom) ==> c.softOom)
    }
  }

  lemma FreshOwnsNothing(blocks: Blocks, t: OwnerToken)
    requires forall a :: a in blocks ==> blocks[a].owner != t
    ensures Charge(blocks, t) == 0 && Count(blocks, t) == 0
  {
    assert SizesOf(blocks, t) == map[];
  }

  lemma NoHeaderNames(blocks: Blocks, t: OwnerToken)
    requires Count(blocks, t) == 0
    ensures forall a :: a in blocks ==> blocks[a].owner != t
  {
    forall a | a in blocks ensures blocks[a].owner != t {
      assert a !in SizesOf(blocks, t);
    }
  }
}
