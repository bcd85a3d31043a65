/**
 * The allowlist compiler (seccomp.zig:144-190): renderProgram turns an allow list and a list of
 * argument-gated entries into classic BPF. The meaning of the rendered program is computed by a
 * small interpreter and compared with what the lists are meant to say.
 */
module Seccomp {
  import opened BigEndian
  import opened Results
  import opened Sets

  const LD_W_ABS: nat := 0x20
  const JMP_JEQ_K: nat := 0x15
  const RET_K: nat := 0x06
  const RET_ALLOW: nat := 0x7FFF_0000
  const RET_EPERM: nat := 0x0005_0001
  const NR_OFFSET: nat := 0
  const ARCH_OFFSET: nat := 4

  /** sock_filter. */
  datatype Insn = Insn(code: nat, jt: nat, jf: nat, k: nat)

  /** An entry allowed only when one argument has one value. */
  datatype ArgCheck = ArgCheck(nr: nat, argIndex: nat, value: nat)

  /** The narrowing casts of renderProgram trap on anything wider. */
  predicate Fits(arch: nat, allowed: seq<nat>, gated: seq<ArgCheck>) {
    && arch < U32
    && (forall i :: 0 <= i < |allowed| ==> allowed[i] < U32)
    && forall i :: 0 <= i < |gated| ==> gated[i].nr < U32 && gated[i].argIndex < 6 && gated[i].value < U32
  }

  // ---- the kernel's side ---------------------------------------------------------------------

  /** seccomp_data, little-endian. */
  datatype Call = Call(nr: nat, arch: nat, ip: nat, args: seq<nat>)

  predicate CallValid(c: Call) {
    c.nr < U32 && c.arch < U32 && c.ip < U64 && |c.args| == 6 && forall i :: 0 <= i < 6 ==> c.args[i] < U64
  }

  /** A 32-bit word of seccomp_data, if `k` is a word offset inside it. */
  function LoadWord(c: Call, k: nat): Option<nat>
    requires CallValid(c)
  {
    if k == 0 then Some(c.nr)
    else if k == 4 then Some(c.arch)
    else if k == 8 then Some(c.ip % U32)
    else if k == 12 then Some(c.ip / U32)
    else if 16 <= k < 64 && k % 8 == 0 then Some(c.args[(k - 16) / 8] % U32)
    else if 16 <= k < 64 && k % 8 == 4 then Some(c.args[(k - 16) / 8] / U32)
    else None
  }

  /** The kernel's own fields of an instruction code: class in 3 bits, then size and mode, or operation and source. */
  datatype Decoded = LoadAbsoluteWord | JumpIfEqual | ReturnConstant | Other

  function Decoding(code: nat): Decoded {
    var group := code % 8;
    if group == 0 && code / 8 % 4 == 0 && code / 32 == 1 then LoadAbsoluteWord
    else if group == 5 && code / 8 % 2 == 0 && code / 16 == 1 then JumpIfEqual
    else if group == 6 && code / 8 == 0 then ReturnConstant
    else Other
  }

  /** What the kernel does with the value a filter returns: the action is its upper half. */
  datatype Action = Allow | Errno(errno: nat) | Unknown

  function ActionOf(value: nat): Action {
    if value / 0x1_0000 == 0x7FFF then Allow
    else if value / 0x1_0000 == 0x0005 then Errno(value % 0x1_0000)
    else Unknown
  }

  /** Run from `pc` with accumulator `a`. None is a program the kernel would not have loaded. */
  function Eval(p: seq<Insn>, pc: nat, a: nat, c: Call): Option<nat>
    requires CallValid(c)
    decreases |p| - pc
  {
    if pc >= |p| then None
    else
      match Decoding(p[pc].code)
      case ReturnConstant => Some(p[pc].k)
      case JumpIfEqual => Eval(p, pc + 1 + (if a == p[pc].k then p[pc].jt else p[pc].jf), a, c)
      case LoadAbsoluteWord =>
        if LoadWord(c, p[pc].k).Some? then Eval(p, pc + 1, LoadWord(c, p[pc].k).value, c) else None
      case Other => None
  }

  // ---- the compiler --------------------------------------------------------------------------

  /** programLength. */
  function ProgramLength(allowed: seq<nat>, gated: seq<ArgCheck>): nat {
    4 + 2 * |allowed| + 5 * |gated| + 1
  }

  function AllowPair(nr: nat): seq<Insn> {
    [Insn(JMP_JEQ_K, 0, 1, nr), Insn(RET_K, 0, 0, RET_ALLOW)]
  }

  function GatedBlock(e: ArgCheck): seq<Insn> {
    [Insn(JMP_JEQ_K, 0, 1, e.nr),
     Insn(LD_W_ABS, 0, 0, 16 + 8 * e.argIndex),
     Insn(JMP_JEQ_K, 0, 1, e.value),
     Insn(RET_K, 0, 0, RET_ALLOW),
     Insn(LD_W_ABS, 0, 0, NR_OFFSET)]
  }

  function Prologue(arch: nat): seq<Insn> {
    [Insn(LD_W_ABS, 0, 0, ARCH_OFFSET), Insn(JMP_JEQ_K, 1, 0, arch), Insn(RET_K, 0, 0, RET_EPERM),
     Insn(LD_W_ABS, 0, 0, NR_OFFSET)]
  }

  function AllowPart(allowed: seq<nat>): (p: seq<Insn>)
    ensures |p| == 2 * |allowed|
  {
    if allowed == [] then [] else AllowPart(allowed[..|allowed| - 1]) + AllowPair(allowed[|allowed| - 1])
  }

  function GatedPart(gated: seq<ArgCheck>): (p: seq<Insn>)
    ensures |p| == 5 * |gated|
  {
    if gated == [] then [] else GatedPart(gated[..|gated| - 1]) + GatedBlock(gated[|gated| - 1])
  }

  function Program(arch: nat, allowed: seq<nat>, gated: seq<ArgCheck>): (p: seq<Insn>)
    ensures |p| == ProgramLength(allowed, gated)
  {
    Prologue(arch) + AllowPart(allowed) + GatedPart(gated) + [Insn(RET_K, 0, 0, RET_EPERM)]
  }

  /** `out[i] = insn; i += 1`. */
  method Put(out: array<Insn>, i: nat, insn: Insn) returns (next: nat)
    requires i < out.Length
    modifies out
    ensures next == i + 1 && out[..next] == old(out[..i]) + [insn]
    ensures forall k :: next <= k < out.Length ==> out[k] == old(out[k])
  {
    out[i] := insn;
    next := i + 1;
  }

  /** renderProgram. */
  method RenderProgram(out: array<Insn>, arch: nat, allowed: seq<nat>, gated: seq<ArgCheck>) returns (n: nat)
    requires Fits(arch, allowed, gated) && ProgramLength(allowed, gated) <= out.Length
    modifies out
    ensures n == ProgramLength(allowed, gated)
    ensures out[..n] == Program(arch, allowed, gated) && out[n..] == old(out[n..])
  {
    hide AllowPart, GatedPart, AllowPair, GatedBlock;
    AllowPartSteps(allowed);
    GatedPartSteps(gated);
    var i := RenderPrologue(out, arch);
    for k := 0 to |allowed|
      invariant i == 4 + 2 * k
      invariant out[..i] == Prologue(arch) + AllowPart(allowed[..k])
      invariant forall j :: i <= j < out.Length ==> out[j] == old(out[j])
    {
      i := RenderAllow(out, i, allowed[k]);
    }
    assert allowed[..|allowed|] == allowed;
    for k := 0 to |gated|
      invariant i == 4 + 2 * |allowed| + 5 * k
      invariant out[..i] == Prologue(arch) + AllowPart(allowed) + GatedPart(gated[..k])
      invariant forall j :: i <= j < out.Length ==> out[j] == old(out[j])
    {
      i := RenderGated(out, i, gated[k]);
    }
    assert gated[..|gated|] == gated;
    n := Put(out, i, Insn(RET_K, 0, 0, RET_EPERM));
  }

  lemma AllowPartSteps(allowed: seq<nat>)
    ensures AllowPart(allowed[..0]) == []
    ensures forall k :: 0 <= k < |allowed| ==>
              AllowPart(allowed[..k + 1]) == AllowPart(allowed[..k]) + AllowPair(allowed[k])
  {
    hide AllowPair;
    forall k | 0 <= k < |allowed|
      ensures AllowPart(allowed[..k + 1]) == AllowPart(allowed[..k]) + AllowPair(allowed[k])
    {
      assert allowed[..k + 1][..k] == allowed[..k];
    }
  }

  lemma GatedPartSteps(gated: seq<ArgCheck>)
    ensures GatedPart(gated[..0]) == []
    ensures forall k :: 0 <= k < |gated| ==> GatedPart(gated[..k + 1]) == GatedPart(gated[..k]) + GatedBlock(gated[k])
  {
    hide GatedBlock;
    forall k | 0 <= k < |gated|
      ensures GatedPart(gated[..k + 1]) == GatedPart(gated[..k]) + GatedBlock(gated[k])
    {
      assert gated[..k + 1][..k] == gated[..k];
    }
  }

  /** The architecture gate and the first load of the number. */
  method RenderPrologue(out: array<Insn>, arch: nat) returns (i: nat)
    requires 4 <= out.Length
    modifies out
    ensures i == 4 && out[..i] == Prologue(arch) && forall k :: i <= k < out.Length ==> out[k] == old(out[k])
  {
    i := Put(out, 0, Insn(LD_W_ABS, 0, 0, ARCH_OFFSET));
    i := Put(out, i, Insn(JMP_JEQ_K, 1, 0, arch));
    i := Put(out, i, Insn(RET_K, 0, 0, RET_EPERM));
    i := Put(out, i, Insn(LD_W_ABS, 0, 0, NR_OFFSET));
  }

  /** The allow loop's body. */
  method RenderAllow(out: array<Insn>, start: nat, nr: nat) returns (i: nat)
    requires start + 2 <= out.Length
    modifies out
    ensures i == start + 2 && out[..i] == old(out[..start]) + AllowPair(nr)
    ensures forall k :: i <= k < out.Length ==> out[k] == old(out[k])
  {
    i := Put(out, start, Insn(JMP_JEQ_K, 0, 1, nr));
    i := Put(out, i, Insn(RET_K, 0, 0, RET_ALLOW));
  }

  /** The argument-gated loop's body. */
  method RenderGated(out: array<Insn>, start: nat, e: ArgCheck) returns (i: nat)
    requires start + 5 <= out.Length
    modifies out
    ensures i == start + 5 && out[..i] == old(out[..start]) + GatedBlock(e)
    ensures forall k :: i <= k < out.Length ==> out[k] == old(out[k])
  {
    i := Put(out, start, Insn(JMP_JEQ_K, 0, 1, e.nr));
    i := Put(out, i, Insn(LD_W_ABS, 0, 0, 16 + 8 * e.argIndex));
    i := Put(out, i, Insn(JMP_JEQ_K, 0, 1, e.value));
    i := Put(out, i, Insn(RET_K, 0, 0, RET_ALLOW));
    i := Put(out, i, Insn(LD_W_ABS, 0, 0, NR_OFFSET));
  }

  // ---- what the program means ----------------------------------------------------------------

  /** A gated entry lets a call through: its number and argument match, or the number equals its value. */
  predicate BlockAllows(c: Call, e: ArgCheck)
    requires CallValid(c) && e.argIndex < 6
  {
    if c.nr == e.nr then c.args[e.argIndex] % U32 == e.value else c.nr == e.value
  }

  /** The decision of the rendered program. */
  predicate Allows(c: Call, arch: nat, allowed: seq<nat>, gated: seq<ArgCheck>)
    requires CallValid(c) && Fits(arch, allowed, gated)
  {
    c.arch == arch && (c.nr in allowed || exists i :: 0 <= i < |gated| && BlockAllows(c, gated[i]))
  }

  /** What an entry is documented to allow: its number, with the whole argument equal to its value. */
  predicate Documents(c: Call, e: ArgCheck)
    requires CallValid(c) && e.argIndex < 6
  {
    c.nr == e.nr && c.args[e.argIndex] == e.value
  }

  /** What the two lists are documented to mean. */
  predicate Documented(c: Call, arch: nat, allowed: seq<nat>, gated: seq<ArgCheck>)
    requires CallValid(c) && Fits(arch, allowed, gated)
  {
    c.arch == arch && (c.nr in allowed || exists i :: 0 <= i < |gated| && Documents(c, gated[i]))
  }

  function Filter(p: seq<Insn>, c: Call): Option<nat>
    requires CallValid(c)
  {
    Eval(p, 0, 0, c)
  }

  /** One allow pair: return ALLOW, or fall through to what follows. */
  lemma PairRuns(p: seq<Insn>, pc: nat, nr: nat, c: Call)
    requires CallValid(c) && pc + 2 <= |p| && p[pc..pc + 2] == AllowPair(nr)
    ensures Eval(p, pc, c.nr, c) == if c.nr == nr then Some(RET_ALLOW) else Eval(p, pc + 2, c.nr, c)
  {
    assert p[pc] == AllowPair(nr)[0] && p[pc + 1] == AllowPair(nr)[1];
  }

  /** One gated block: return ALLOW, or fall through with the number reloaded. */
  lemma BlockRuns(p: seq<Insn>, pc: nat, e: ArgCheck, c: Call)
    requires CallValid(c) && e.argIndex < 6 && pc + 5 <= |p| && p[pc..pc + 5] == GatedBlock(e)
    ensures Eval(p, pc, c.nr, c) == if BlockAllows(c, e) then Some(RET_ALLOW) else Eval(p, pc + 5, c.nr, c)
  {
    var b := GatedBlock(e);
    assert p[pc] == b[0] && p[pc + 1] == b[1] && p[pc + 2] == b[2] && p[pc + 3] == b[3] && p[pc + 4] == b[4];
    var word := c.args[e.argIndex] % U32;
    assert LoadWord(c, 16 + 8 * e.argIndex) == Some(word);
    assert Eval(p, pc + 4, word, c) == Eval(p, pc + 5, c.nr, c);
    assert Eval(p, pc + 4, c.nr, c) == Eval(p, pc + 5, c.nr, c);
    assert Eval(p, pc + 2, word, c) == if word == e.value then Some(RET_ALLOW) else Eval(p, pc + 4, word, c);
    assert Eval(p, pc + 2, c.nr, c) == if c.nr == e.value then Some(RET_ALLOW) else Eval(p, pc + 4, c.nr, c);
  }

  /** Position of entry `k` of the gated list. */
  function GatedStart(allowed: seq<nat>, k: nat): nat {
    4 + 2 * |allowed| + 5 * k
  }

  lemma {:induction false} AllowPartAt(allowed: seq<nat>, k: nat)
    requires k < |allowed|
    ensures AllowPart(allowed)[2 * k..2 * k + 2] == AllowPair(allowed[k])
  {
    var init := allowed[..|allowed| - 1];
    if k < |init| {
      AllowPartAt(init, k);
      assert AllowPart(allowed)[2 * k..2 * k + 2] == AllowPart(init)[2 * k..2 * k + 2];
    }
  }

  lemma {:induction false} GatedPartAt(gated: seq<ArgCheck>, k: nat)
    requires k < |gated|
    ensures GatedPart(gated)[5 * k..5 * k + 5] == GatedBlock(gated[k])
  {
    var init := gated[..|gated| - 1];
    if k < |init| {
      GatedPartAt(init, k);
      assert GatedPart(gated)[5 * k..5 * k + 5] == GatedPart(init)[5 * k..5 * k + 5];
    }
  }

  lemma ProgramAt(arch: nat, allowed: seq<nat>, gated: seq<ArgCheck>)
    ensures var p := Program(arch, allowed, gated);
            && p[..4] == Prologue(arch)
            && (forall k :: 0 <= k < |allowed| ==> p[4 + 2 * k..4 + 2 * k + 2] == AllowPair(allowed[k]))
            && (forall k :: 0 <= k < |gated| ==>
                  p[GatedStart(allowed, k)..GatedStart(allowed, k) + 5] == GatedBlock(gated[k]))
            && p[GatedStart(allowed, |gated|)] == Insn(RET_K, 0, 0, RET_EPERM)
  {
    hide AllowPart, GatedPart, AllowPair, GatedBlock;
    var p := Program(arch, allowed, gated);
    forall k | 0 <= k < |allowed| ensures p[4 + 2 * k..4 + 2 * k + 2] == AllowPair(allowed[k]) {
      AllowPartAt(allowed, k);
      assert p[4 + 2 * k..4 + 2 * k + 2] == AllowPart(allowed)[2 * k..2 * k + 2];
    }
    forall k | 0 <= k < |gated| ensures p[GatedStart(allowed, k)..GatedStart(allowed, k) + 5] == GatedBlock(gated[k]) {
      GatedPartAt(gated, k);
      assert p[GatedStart(allowed, k)..GatedStart(allowed, k) + 5] == GatedPart(gated)[5 * k..5 * k + 5];
    }
  }

  lemma {:induction false} GatedRuns(arch: nat, allowed: seq<nat>, gated: seq<ArgCheck>, c: Call, k: nat)
    requires CallValid(c) && Fits(arch, allowed, gated) && k <= |gated|
    ensures Eval(Program(arch, allowed, gated), GatedStart(allowed, k), c.nr, c) ==
            Some(if AnyBlockAllows(c, gated, k) then RET_ALLOW else RET_EPERM)
    decreases |gated| - k
  {
    hide Program, GatedBlock, BlockAllows;
    ProgramAt(arch, allowed, gated);
    var p := Program(arch, allowed, gated);
    if k < |gated| {
      BlockRuns(p, GatedStart(allowed, k), gated[k], c);
      GatedRuns(arch, allowed, gated, c, k + 1);
    }
  }

  /** `nr` is entry `k` of the list or a later one. */
  predicate ListedFrom(allowed: seq<nat>, nr: nat, k: nat) {
    exists j :: k <= j < |allowed| && allowed[j] == nr
  }

  predicate AnyBlockAllows(c: Call, gated: seq<ArgCheck>, k: nat)
    requires CallValid(c) && forall i :: 0 <= i < |gated| ==> gated[i].argIndex < 6
  {
    exists i :: k <= i < |gated| && BlockAllows(c, gated[i])
  }

  lemma {:induction false} AllowRuns(arch: nat, allowed: seq<nat>, gated: seq<ArgCheck>, c: Call, k: nat)
    requires CallValid(c) && Fits(arch, allowed, gated) && k <= |allowed|
    ensures Eval(Program(arch, allowed, gated), 4 + 2 * k, c.nr, c) ==
            Some(if ListedFrom(allowed, c.nr, k) || AnyBlockAllows(c, gated, 0) then RET_ALLOW else RET_EPERM)
    decreases |allowed| - k
  {
    hide Program, AllowPair, BlockAllows, GatedBlock;
    ProgramAt(arch, allowed, gated);
    var p := Program(arch, allowed, gated);
    if k < |allowed| {
      PairRuns(p, 4 + 2 * k, allowed[k], c);
      AllowRuns(arch, allowed, gated, c, k + 1);
    } else {
      GatedRuns(arch, allowed, gated, c, 0);
    }
  }

  /** The rendered program always returns, and what it decides is exactly `Allows`. */
  lemma FilterMeaning(arch: nat, allowed: seq<nat>, gated: seq<ArgCheck>, c: Call)
    requires CallValid(c) && Fits(arch, allowed, gated)
    ensures Filter(Program(arch, allowed, gated), c) ==
            Some(if Allows(c, arch, allowed, gated) then RET_ALLOW else RET_EPERM)
    ensures ActionOf(Filter(Program(arch, allowed, gated), c).value) ==
            if Allows(c, arch, allowed, gated) then Allow else Errno(1)
  {
    hide Program, BlockAllows;
    ProgramAt(arch, allowed, gated);
    var p := Program(arch, allowed, gated);
    PrologueRuns(p, arch, c);
    AllowRuns(arch, allowed, gated, c, 0);
  }

  lemma PrologueRuns(p: seq<Insn>, arch: nat, c: Call)
    requires CallValid(c) && |p| > 4 && p[..4] == Prologue(arch)
    ensures Filter(p, c) == if c.arch == arch then Eval(p, 4, c.nr, c) else Some(RET_EPERM)
  {
    var q := Prologue(arch);
    assert p[0] == q[0] && p[1] == q[1] && p[2] == q[2] && p[3] == q[3];
    assert Eval(p, 3, c.arch, c) == Eval(p, 4, c.nr, c);
    assert Eval(p, 1, c.arch, c) == if c.arch == arch then Eval(p, 3, c.arch, c) else Eval(p, 2, c.arch, c);
  }

  // ---- the documented meaning, and where the program departs from it ------------------------

  /** The call's number is the value of another number's entry. */
  predicate Collides(c: Call, e: ArgCheck) {
    c.nr != e.nr && c.nr == e.value
  }

  /** The entry's own number, with an argument that equals its value in the low 32 bits only. */
  predicate Aliases(c: Call, e: ArgCheck)
    requires CallValid(c) && e.argIndex < 6
  {
    c.nr == e.nr && c.args[e.argIndex] != e.value && c.args[e.argIndex] % U32 == e.value
  }

  /** An unlisted call that no entry documents, and that collides with an entry or aliases one. */
  predicate Departs(c: Call, arch: nat, allowed: seq<nat>, gated: seq<ArgCheck>)
    requires CallValid(c) && Fits(arch, allowed, gated)
  {
    && c.arch == arch && !Documented(c, arch, allowed, gated)
    && exists i :: 0 <= i < |gated| && (Collides(c, gated[i]) || Aliases(c, gated[i]))
  }

  lemma BlockCases(c: Call, e: ArgCheck)
    requires CallValid(c) && e.argIndex < 6 && e.value < U32
    ensures BlockAllows(c, e) <==> Documents(c, e) || Collides(c, e) || Aliases(c, e)
  {
  }

  /**
   * Call by call: the program never refuses what is documented, and what it lets through beyond that
   * is exactly the colliding numbers and the aliased arguments.
   */
  lemma DepartsExactly(arch: nat, allowed: seq<nat>, gated: seq<ArgCheck>, c: Call)
    requires CallValid(c) && Fits(arch, allowed, gated)
    ensures Documented(c, arch, allowed, gated) ==> Filter(Program(arch, allowed, gated), c) == Some(RET_ALLOW)
    ensures (Filter(Program(arch, allowed, gated), c) == Some(RET_ALLOW) <==> Documented(c, arch, allowed, gated))
            <==> !Departs(c, arch, allowed, gated)
  {
    hide Program, Filter, BlockAllows, Documents, Collides, Aliases;
    FilterMeaning(arch, allowed, gated, c);
    forall i | 0 <= i < |gated|
      ensures BlockAllows(c, gated[i]) <==>
              Documents(c, gated[i]) || Collides(c, gated[i]) || Aliases(c, gated[i])
    {
      BlockCases(c, gated[i]);
    }
  }

  /** Tables in which the gated entries gate nothing: their numbers and values are all listed. */
  predicate NothingGated(allowed: seq<nat>, gated: seq<ArgCheck>) {
    forall i :: 0 <= i < |gated| ==> gated[i].nr in allowed && gated[i].value in allowed
  }

  /** Tables in which every gated value is its own entry's number or is listed anyway. */
  predicate ValuesHarmless(allowed: seq<nat>, gated: seq<ArgCheck>) {
    forall i :: 0 <= i < |gated| ==> gated[i].value == gated[i].nr || gated[i].value in allowed
  }

  /** Arguments that fit the one word the program looks at. */
  predicate Narrow(c: Call) {
    forall k :: 0 <= k < |c.args| ==> c.args[k] < U32
  }

  function Upto(n: nat): (all: set<nat>)
    ensures |all| == n + 1 && forall w :: w in all ==> w <= n
  {
    if n == 0 then {0} else Upto(n - 1) + {n}
  }

  function ValuesOf(gated: seq<ArgCheck>): (used: set<nat>)
    ensures |used| <= |gated| && forall i :: 0 <= i < |gated| ==> gated[i].value in used
  {
    if gated == [] then {} else ValuesOf(gated[..|gated| - 1]) + {gated[|gated| - 1].value}
  }

  /** Some small word is the value of no gated entry. */
  lemma UnusedValue(gated: seq<ArgCheck>) returns (w: nat)
    ensures w <= |gated| && forall i :: 0 <= i < |gated| ==> gated[i].value != w
  {
    var used, all := ValuesOf(gated), Upto(|gated|);
    if all <= used {
      SubsetSize(all, used);
    }
    w :| w in all && w !in used;
  }

  /**
   * Table by table: the program means what is documented, for every call, exactly when nothing is
   * really gated. (A loadable program has fewer than 2^16 instructions.)
   */
  lemma MeansWhatIsDocumented(arch: nat, allowed: seq<nat>, gated: seq<ArgCheck>)
    requires Fits(arch, allowed, gated) && ProgramLength(allowed, gated) < 0x1_0000
    ensures (forall c :: CallValid(c) ==>
               (Filter(Program(arch, allowed, gated), c) == Some(RET_ALLOW) <==> Documented(c, arch, allowed, gated)))
            <==> NothingGated(allowed, gated)
  {
    hide Program, Filter, CallValid, Departs;
    if NothingGated(allowed, gated) {
      forall c | CallValid(c)
        ensures Filter(Program(arch, allowed, gated), c) == Some(RET_ALLOW) <==> Documented(c, arch, allowed, gated)
      {
        ListedNeverDeparts(arch, allowed, gated, c);
        DepartsExactly(arch, allowed, gated, c);
      }
    } else {
      var i :| 0 <= i < |gated| && !(gated[i].nr in allowed && gated[i].value in allowed);
      var c: Call;
      if gated[i].nr !in allowed {
        c := AliasOf(arch, allowed, gated, i);
      } else {
        c := CollisionOf(arch, allowed, gated, i);
      }
      DepartsExactly(arch, allowed, gated, c);
    }
  }

  /**
   * With arguments of 32 bits only the colliding numbers are left: on such calls the program means
   * what is documented exactly when the gated values are harmless.
   */
  lemma MeansWhatIsDocumentedNarrowly(arch: nat, allowed: seq<nat>, gated: seq<ArgCheck>)
    requires Fits(arch, allowed, gated) && ProgramLength(allowed, gated) < 0x1_0000
    ensures (forall c :: CallValid(c) && Narrow(c) ==>
               (Filter(Program(arch, allowed, gated), c) == Some(RET_ALLOW) <==> Documented(c, arch, allowed, gated)))
            <==> ValuesHarmless(allowed, gated)
  {
    hide Program, Filter, CallValid, Departs;
    if ValuesHarmless(allowed, gated) {
      forall c | CallValid(c) && Narrow(c)
        ensures Filter(Program(arch, allowed, gated), c) == Some(RET_ALLOW) <==> Documented(c, arch, allowed, gated)
      {
        NarrowNeverDeparts(arch, allowed, gated, c);
        DepartsExactly(arch, allowed, gated, c);
      }
    } else {
      var i :| 0 <= i < |gated| && gated[i].value != gated[i].nr && gated[i].value !in allowed;
      var c := CollisionOf(arch, allowed, gated, i);
      DepartsExactly(arch, allowed, gated, c);
    }
  }

  lemma ListedNeverDeparts(arch: nat, allowed: seq<nat>, gated: seq<ArgCheck>, c: Call)
    requires CallValid(c) && Fits(arch, allowed, gated) && NothingGated(allowed, gated)
    ensures !Departs(c, arch, allowed, gated)
  {
  }

  lemma NarrowNeverDeparts(arch: nat, allowed: seq<nat>, gated: seq<ArgCheck>, c: Call)
    requires CallValid(c) && Fits(arch, allowed, gated) && ValuesHarmless(allowed, gated) && Narrow(c)
    ensures !Departs(c, arch, allowed, gated)
  {
    forall i | 0 <= i < |gated| ensures !Aliases(c, gated[i]) && (Collides(c, gated[i]) ==> c.nr in allowed) {
      SmallWord(c.args[gated[i].argIndex]);
    }
  }

  lemma SmallWord(w: nat)
    requires w < U32
    ensures w % U32 == w && (w + U32) % U32 == w
  {
  }

  /** A call to entry `i`'s number with its value in the low word, a bit above it, and no other gate met. */
  lemma AliasOf(arch: nat, allowed: seq<nat>, gated: seq<ArgCheck>, i: nat) returns (c: Call)
    requires Fits(arch, allowed, gated) && i < |gated| && gated[i].nr !in allowed
    ensures CallValid(c) && Departs(c, arch, allowed, gated)
  {
    var w := gated[i].value + U32;
    c := Call(gated[i].nr, arch, 0, [w, w, w, w, w, w]);
    SmallWord(gated[i].value);
    AllArguments(c, w);
    assert Aliases(c, gated[i]);
  }

  /** A call whose number is entry `i`'s value and whose arguments meet no gate. */
  lemma CollisionOf(arch: nat, allowed: seq<nat>, gated: seq<ArgCheck>, i: nat) returns (c: Call)
    requires Fits(arch, allowed, gated) && ProgramLength(allowed, gated) < 0x1_0000
    requires i < |gated| && gated[i].value != gated[i].nr && gated[i].value !in allowed
    ensures CallValid(c) && Narrow(c) && Departs(c, arch, allowed, gated)
  {
    var w := UnusedValue(gated);
    c := Call(gated[i].value, arch, 0, [w, w, w, w, w, w]);
    AllArguments(c, w);
    assert Collides(c, gated[i]);
  }

  lemma AllArguments(c: Call, w: nat)
    requires w < U64 && c.nr < U32 && c.arch < U32 && c.ip == 0 && c.args == [w, w, w, w, w, w]
    ensures CallValid(c) && forall k :: 0 <= k < 6 ==> c.args[k] == w
  {
  }

  // ---- the tables as shipped -----------------------------------------------------------------

  const AUDIT_ARCH_X86_64: nat := 0xC000_003E
  const AUDIT_ARCH_AARCH64: nat := 0xC000_00B7

  /** The allow list in its own order, with the numbers of the Linux x86_64 system call table. */
  const X86_64_ALLOWED: seq<nat> := [
    60, 231, 9, 11, 10, 12, 28, 0, 19, 1, 20, 296, 318, 3, 5, 228, 230, 96, 13, 14, 15, 219, 234, 202, 39, 186, 24]

  /** prlimit64 with a null new limit, and ioctl(TCGETS). */
  const X86_64_GATED: seq<ArgCheck> := ShippedGated(302, 16)

  /** The same lists with the numbers of the generic Linux table that aarch64 uses. */
  const AARCH64_ALLOWED: seq<nat> := [
    93, 94, 222, 215, 226, 214, 233, 63, 65, 64, 66, 70, 278, 57, 80, 113, 115, 169, 134, 135, 139, 128, 131, 98, 172,
    178, 124]

  const AARCH64_GATED: seq<ArgCheck> := ShippedGated(261, 29)

  /** The two gated entries every table ships: number `p` with value 0 and number `q` with value 0x5401. */
  function ShippedGated(p: nat, q: nat): seq<ArgCheck> {
    [ArgCheck(p, 2, 0), ArgCheck(q, 1, 0x5401)]
  }

  /** What the shipped gates let through beyond their documentation, `p` being prlimit64 and `q` ioctl. */
  predicate ShippedExtra(c: Call, allowed: seq<nat>, p: nat, q: nat)
    requires CallValid(c)
  {
    // A gated value taken for a call number.
    || c.nr == 0x5401 || (c.nr == 0 && 0 !in allowed)
    // prlimit64 with a new limit at a multiple of 2^32.
    || (c.nr == p && c.args[2] != 0 && c.args[2] % U32 == 0)
    // ioctl with TCGETS in the low word of a larger request.
    || (c.nr == q && c.args[1] != 0x5401 && c.args[1] % U32 == 0x5401)
  }

  lemma TwoGates(arch: nat, allowed: seq<nat>, p: nat, q: nat, c: Call)
    requires CallValid(c) && Fits(arch, allowed, ShippedGated(p, q)) && 0x5401 !in allowed
    requires p != 0 && q != 0 && p != 0x5401 && q != 0x5401 && p != q && p !in allowed && q !in allowed
    ensures Filter(Program(arch, allowed, ShippedGated(p, q)), c) == Some(RET_ALLOW) <==>
            Documented(c, arch, allowed, ShippedGated(p, q)) || (c.arch == arch && ShippedExtra(c, allowed, p, q))
    ensures ShippedExtra(c, allowed, p, q) ==> !Documented(c, arch, allowed, ShippedGated(p, q))
  {
    hide Program, Filter;
    var gated := ShippedGated(p, q);
    assert gated[0] == ArgCheck(p, 2, 0) && gated[1] == ArgCheck(q, 1, 0x5401);
    DepartsExactly(arch, allowed, gated, c);
  }

  /** Every listed number is small, at least `low`, and gated nowhere. */
  predicate Plain(allowed: seq<nat>, low: nat, p: nat, q: nat) {
    forall i :: 0 <= i < |allowed| ==> low <= allowed[i] < 0x1000 && allowed[i] != p && allowed[i] != q
  }

  lemma PlainOnX86()
    ensures Plain(X86_64_ALLOWED, 0, 302, 16)
  {
  }

  lemma PlainOnAarch64()
    ensures Plain(AARCH64_ALLOWED, 1, 261, 29)
  {
  }

  lemma ReadIsListed()
    ensures 0 in X86_64_ALLOWED
  {
    assert X86_64_ALLOWED[7] == 0;
  }

  lemma SmallTableFits(arch: nat, allowed: seq<nat>, p: nat, q: nat, low: nat)
    requires Plain(allowed, low, p, q) && arch < U32 && p < U32 && q < U32
    ensures Fits(arch, allowed, ShippedGated(p, q)) && 0x5401 !in allowed && (low > 0 ==> 0 !in allowed)
    ensures p !in allowed && q !in allowed
  {
  }

  /**
   * On x86_64 the shipped program lets three kinds of call through against its documentation: any
   * call numbered 0x5401, the ioctl request code; prlimit64 with a non-null limit whose low word is
   * zero; ioctl with a request that is TCGETS in its low word only. The other gated value, 0, is
   * read's number there and listed anyway.
   */
  lemma ShippedOnX86(c: Call)
    requires CallValid(c)
    ensures Fits(AUDIT_ARCH_X86_64, X86_64_ALLOWED, X86_64_GATED)
    ensures Filter(Program(AUDIT_ARCH_X86_64, X86_64_ALLOWED, X86_64_GATED), c) == Some(RET_ALLOW) <==>
            || Documented(c, AUDIT_ARCH_X86_64, X86_64_ALLOWED, X86_64_GATED)
            || (c.arch == AUDIT_ARCH_X86_64
                && (|| c.nr == 0x5401
                    || (c.nr == 302 && c.args[2] != 0 && c.args[2] % U32 == 0)
                    || (c.nr == 16 && c.args[1] != 0x5401 && c.args[1] % U32 == 0x5401)))
    ensures ShippedExtra(c, X86_64_ALLOWED, 302, 16) ==>
              !Documented(c, AUDIT_ARCH_X86_64, X86_64_ALLOWED, X86_64_GATED)
  {
    hide Program, Filter, Fits, Documented;
    PlainOnX86();
    ReadIsListed();
    SmallTableFits(AUDIT_ARCH_X86_64, X86_64_ALLOWED, 302, 16, 0);
    TwoGates(AUDIT_ARCH_X86_64, X86_64_ALLOWED, 302, 16, c);
  }

  /**
   * On aarch64 it lets through a fourth: any call numbered 0, which is prlimit64's gated value, the
   * number of io_setup, and on no list.
   */
  lemma ShippedOnAarch64(c: Call)
    requires CallValid(c)
    ensures Fits(AUDIT_ARCH_AARCH64, AARCH64_ALLOWED, AARCH64_GATED)
    ensures Filter(Program(AUDIT_ARCH_AARCH64, AARCH64_ALLOWED, AARCH64_GATED), c) == Some(RET_ALLOW) <==>
            || Documented(c, AUDIT_ARCH_AARCH64, AARCH64_ALLOWED, AARCH64_GATED)
            || (c.arch == AUDIT_ARCH_AARCH64
                && (|| c.nr == 0x5401 || c.nr == 0
                    || (c.nr == 261 && c.args[2] != 0 && c.args[2] % U32 == 0)
                    || (c.nr == 29 && c.args[1] != 0x5401 && c.args[1] % U32 == 0x5401)))
    ensures ShippedExtra(c, AARCH64_ALLOWED, 261, 29) ==>
              !Documented(c, AUDIT_ARCH_AARCH64, AARCH64_ALLOWED, AARCH64_GATED)
  {
    hide Program, Filter, Fits, Documented;
    PlainOnAarch64();
    SmallTableFits(AUDIT_ARCH_AARCH64, AARCH64_ALLOWED, 261, 29, 1);
    TwoGates(AUDIT_ARCH_AARCH64, AARCH64_ALLOWED, 261, 29, c);
  }

  /** Concretely: prlimit64 with a new limit at address 2^32 passes on both architectures. */
  lemma NonNullLimitPasses()
    ensures var x, a := Call(302, AUDIT_ARCH_X86_64, 0, [0, 0, U32, 0, 0, 0]),
                        Call(261, AUDIT_ARCH_AARCH64, 0, [0, 0, U32, 0, 0, 0]);
            && CallValid(x) && CallValid(a)
            && Filter(Program(AUDIT_ARCH_X86_64, X86_64_ALLOWED, X86_64_GATED), x) == Some(RET_ALLOW)
            && Filter(Program(AUDIT_ARCH_AARCH64, AARCH64_ALLOWED, AARCH64_GATED), a) == Some(RET_ALLOW)
            && Fits(AUDIT_ARCH_X86_64, X86_64_ALLOWED, X86_64_GATED)
            && Fits(AUDIT_ARCH_AARCH64, AARCH64_ALLOWED, AARCH64_GATED)
            && !Documented(x, AUDIT_ARCH_X86_64, X86_64_ALLOWED, X86_64_GATED)
            && !Documented(a, AUDIT_ARCH_AARCH64, AARCH64_ALLOWED, AARCH64_GATED)
  {
    hide Program, Filter, Fits, Documented;
    ShippedOnX86(Call(302, AUDIT_ARCH_X86_64, 0, [0, 0, U32, 0, 0, 0]));
    ShippedOnAarch64(Call(261, AUDIT_ARCH_AARCH64, 0, [0, 0, U32, 0, 0, 0]));
  }
}
