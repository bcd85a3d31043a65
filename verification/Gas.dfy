/** The instruction meter (gas.zig:35-107): generations of a finite allowance, one unit per fetch. */
module Gas {
  import opened BigEndian
  import opened Results

  const U128: nat := U64 * U64

  datatype Policy = Unlimited | PerIsolate(limit: nat) | PerExecution(limit: nat)

  datatype Scope = IsolateScope | ExecutionScope

  datatype Meter = Meter(
    scope: Scope, generation: nat, limit: nat, used: nat, remaining: nat, exhausted: bool, observed: nat, active: bool)

  /** The law every operation keeps. Finite widths: generation and limit are u64, observed is u128. */
  predicate Balanced(m: Meter) {
    && m.used + m.remaining == m.limit < U64 && m.generation < U64 && m.observed < U128
    && (m.exhausted ==> m.remaining == 0)
    && (m.used <= m.observed || m.observed == U128 - 1)
  }

  /** Meter.init. */
  function Init(policy: Policy): (m: Option<Meter>)
    ensures m.None? <==> policy.Unlimited?
    ensures m.Some? && policy.limit < U64 ==> Balanced(m.value) && m.value.remaining == policy.limit
  {
    match policy
    case Unlimited => None
    case PerIsolate(limit) => Some(Meter(IsolateScope, 1, limit, 0, limit, false, 0, true))
    case PerExecution(limit) => Some(Meter(ExecutionScope, 0, limit, 0, limit, false, 0, false))
  }

  /** Generations count from 1: the isolate's one and only, or that of the first execution. */
  lemma FirstGeneration(limit: nat)
    ensures var isolate, execution := Init(PerIsolate(limit)).value, Init(PerExecution(limit)).value;
            && isolate.generation == 1 && isolate.active && isolate.used == 0 && isolate.remaining == limit
            && isolate.scope.IsolateScope? && execution.scope.ExecutionScope?
            && !execution.active && NextGeneration(execution).generation == 1
  {
  }

  /** Whether observeFetch finds the allowance already empty. */
  predicate Empty(m: Meter) {
    m.active && m.remaining == 0
  }

  /** The meter after observeFetch. */
  function Observed(m: Meter): (m': Meter)
    ensures Balanced(m) ==> Balanced(m')
    ensures m'.remaining == m.remaining && m'.used == m.used && m'.generation == m.generation
    ensures m'.exhausted == (m.exhausted || Empty(m))
  {
    if !m.active then m
    else m.(observed := if m.observed < U128 - 1 then m.observed + 1 else m.observed,
            exhausted := m.exhausted || m.remaining == 0)
  }

  /** chargeFetch, after an observation of the same fetch. */
  function Charged(m: Meter): (m': Meter)
    ensures m'.used + m'.remaining == m.used + m.remaining
    ensures m'.used == m.used + if m.active && m.remaining > 0 then 1 else 0
  {
    if !m.active || m.remaining == 0 then m else m.(remaining := m.remaining - 1, used := m.used + 1)
  }

  lemma ObservedThenCharged(m: Meter)
    requires Balanced(m) && m.used < U128 - 1
    ensures Balanced(Charged(Observed(m)))
  {
  }

  /** nextGeneration. */
  function NextGeneration(m: Meter): (m': Meter)
    ensures Balanced(m) ==> Balanced(m')
    ensures m'.remaining == m'.limit == m.limit && m'.active && !m'.exhausted
    ensures m.generation + 1 < U64 ==> m'.generation == m.generation + 1
  {
    m.(generation := if m.generation + 1 < U64 then m.generation + 1 else U64 - 1,
       used := 0, remaining := m.limit, exhausted := false, observed := 0, active := true)
  }

  /** finishGeneration. */
  function Finished(m: Meter): (m': Meter)
    ensures Balanced(m) ==> Balanced(m')
    ensures m' == m.(active := m.active && m.scope.IsolateScope?)
  {
    if m.scope == ExecutionScope then m.(active := false) else m
  }
}
