/** Saturating counters and sums over finite maps, for balancing the allocator's books. */
module Ledger {
  import opened BigEndian

  /** Every block is preceded by a header of this size (alloc.zig:31). */
  const HEADER_BYTES: nat := 16

  function SaturatingAdd(a: nat, b: nat): nat {
    if a + b < U64 then a + b else U64 - 1
  }

  function SaturatingSub(a: nat, b: nat): nat {
    if a < b then 0 else a - b
  }

  ghost function Total(m: map<nat, nat>): nat
    decreases |m|
  {
    if m == map[] then 0
    else
      var k :| k in m;
      m[k] + Total(m - {k})
  }

  /** A sum does not depend on the order of its terms. */
  lemma {:induction false} TotalWithout(m: map<nat, nat>, k: nat)
    requires k in m
    ensures Total(m) == m[k] + Total(m - {k})
    decreases |m|
  {
    var first :| first in m && Total(m) == m[first] + Total(m - {first});
    if first != k {
      TotalWithout(m - {first}, k);
      TotalWithout(m - {k}, first);
      assert m - {first} - {k} == m - {k} - {first};
    }
  }

  /** A part of the books never exceeds the whole. */
  lemma {:induction false} TotalOfPart(part: map<nat, nat>, whole: map<nat, nat>)
    requires forall k :: k in part ==> k in whole && part[k] == whole[k]
    ensures Total(part) <= Total(whole) && |part| <= |whole|
    decreases |part|
  {
    if part != map[] {
      var k :| k in part;
      TotalWithout(part, k);
      TotalWithout(whole, k);
      TotalOfPart(part - {k}, whole - {k});
      Removed(part, k);
      Removed(whole, k);
    }
  }

  lemma Removed(m: map<nat, nat>, k: nat)
    requires k in m
    ensures |m - {k}| == |m| - 1
  {
    assert (m - {k}).Keys == m.Keys - {k};
    assert |(m - {k}).Keys| == |m.Keys| - 1;
  }

  lemma TakenOff(m: map<nat, nat>, k: nat)
    ensures Total(m - {k}) == Total(m) - (if k in m then m[k] else 0)
    ensures |m - {k}| == |m| - (if k in m then 1 else 0)
  {
    if k in m {
      TotalWithout(m, k);
      Removed(m, k);
    } else {
      assert m - {k} == m;
    }
  }
}
