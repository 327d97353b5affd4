/** The reentrant critical section of src/kernel/interrupt.h: `no_ints`
    clears the interrupt flag and increments the 64-bit nesting counter
    `int_blocks`; `ints_okay` decrements it (refusing, with a warning, to go
    below zero) and sets the interrupt flag again once the counter is zero. */
module CriticalSection {
  import opened Machine

  /** The state `interrupt.h` works on: the counter `int_blocks`, the CPU
      interrupt flag (cleared by `cli`, set by `sti`) and the number of
      misuse warnings logged so far. */
  datatype CpuState = CpuState(blocks: nat, enabled: bool, warnings: nat)

  /** One call of either primitive. */
  datatype Op = Block | Unblock

  /** `no_ints`: `cli`, then `int_blocks++` on a 64-bit counter. */
  function AfterNoInts(s: CpuState): CpuState {
    CpuState((s.blocks + 1) % U64, false, s.warnings)
  }

  /** `ints_okay_once_on`: log a warning when the counter is already zero,
      otherwise decrement it. */
  function AfterOnceOn(s: CpuState): CpuState {
    if s.blocks <= 0 then s.(warnings := s.warnings + 1)
    else s.(blocks := s.blocks - 1)
  }

  /** `ints_okay`: `ints_okay_once_on`, then `sti` when the counter is zero. */
  function AfterIntsOkay(s: CpuState): CpuState {
    var t := AfterOnceOn(s);
    if t.blocks == 0 then t.(enabled := true) else t
  }

  function Step(s: CpuState, op: Op): CpuState {
    match op
    case Block => AfterNoInts(s)
    case Unblock => AfterIntsOkay(s)
  }

  /** The state after running `ops` in order from `s`. */
  function Run(s: CpuState, ops: seq<Op>): CpuState
    decreases |ops|
  {
    if ops == [] then s else Step(Run(s, ops[..|ops| - 1]), ops[|ops| - 1])
  }

  /** Number of `no_ints` minus number of `ints_okay` in `ops`. */
  function Depth(ops: seq<Op>): int
    decreases |ops|
  {
    if ops == [] then 0
    else Depth(ops[..|ops| - 1]) + (if ops[|ops| - 1] == Block then 1 else -1)
  }

  /** No prefix of `ops` releases more often than it acquires. */
  ghost predicate NeverUnderflows(ops: seq<Op>) {
    forall k :: 0 <= k <= |ops| ==> Depth(ops[..k]) >= 0
  }

  /** The deepest nesting any prefix of `ops` reaches. */
  ghost predicate DepthAtMost(ops: seq<Op>, d: int) {
    forall k :: 0 <= k <= |ops| ==> Depth(ops[..k]) <= d
  }

  /** A properly nested sequence of acquisitions and releases. */
  ghost predicate Balanced(ops: seq<Op>) {
    NeverUnderflows(ops) && Depth(ops) == 0
  }

  /** The design invariant: interrupts are disabled whenever the counter is positive. */
  ghost predicate Inv(s: CpuState) {
    s.blocks < U64 && (s.blocks > 0 ==> !s.enabled)
  }

  /** `ints_okay` at counter zero reports the misuse, leaves the counter at
      zero (it never wraps to 2^64 - 1) and still executes `sti`; at a
      positive counter it decrements without a warning and enables
      interrupts exactly when the counter reaches zero. */
  lemma IntsOkayOutcome(s: CpuState)
    ensures s.blocks == 0 ==>
      AfterIntsOkay(s) == CpuState(0, true, s.warnings + 1)
    ensures s.blocks > 0 ==>
      AfterIntsOkay(s).blocks == s.blocks - 1 && AfterIntsOkay(s).warnings == s.warnings &&
      (AfterIntsOkay(s).enabled <==> s.blocks == 1 || s.enabled)
  {
  }

  /** Both primitives keep the design invariant. */
  lemma StepKeepsInv(s: CpuState, op: Op)
    requires Inv(s)
    ensures Inv(Step(s, op))
  {
  }

  /** Any sequence of calls keeps the design invariant. */
  lemma {:induction false} RunKeepsInv(s: CpuState, ops: seq<Op>)
    requires Inv(s)
    ensures Inv(Run(s, ops))
    decreases |ops|
  {
    if ops != [] {
      RunKeepsInv(s, ops[..|ops| - 1]);
      StepKeepsInv(Run(s, ops[..|ops| - 1]), ops[|ops| - 1]);
    }
  }

  /** While no prefix over-releases and the counter cannot overflow, the
      counter after `ops` is the starting counter plus the nesting depth,
      and no warning is logged. */
  lemma {:induction false} RunCountsDepth(s: CpuState, ops: seq<Op>)
    requires NeverUnderflows(ops)
    requires DepthAtMost(ops, U64 - 1 - s.blocks)
    ensures Run(s, ops).blocks == s.blocks + Depth(ops)
    ensures Run(s, ops).warnings == s.warnings
    decreases |ops|
  {
    if ops != [] {
      var init := ops[..|ops| - 1];
      assert forall k :: 0 <= k <= |init| ==> init[..k] == ops[..k];
      RunCountsDepth(s, init);
      assert ops[..|ops|] == ops;
    }
  }

  /** A balanced nest of `no_ints`/`ints_okay` restores the original counter;
      started from counter zero, a non-empty one leaves interrupts enabled. */
  lemma BalancedRestoresCounter(s: CpuState, ops: seq<Op>)
    requires Balanced(ops)
    requires DepthAtMost(ops, U64 - 1 - s.blocks)
    ensures Run(s, ops).blocks == s.blocks
    ensures Run(s, ops).warnings == s.warnings
    ensures s.blocks == 0 && ops != [] ==> Run(s, ops).enabled
  {
    RunCountsDepth(s, ops);
    if s.blocks == 0 && ops != [] {
      var init := ops[..|ops| - 1];
      assert forall k :: 0 <= k <= |init| ==> init[..k] == ops[..k];
      RunCountsDepth(s, init);
      assert ops[|ops| - 1] == Unblock;
    }
  }

  /** The kernel's global critical-section state, updated in place. */
  class Interrupts {
    var intBlocks: nat
    var enabled: bool
    var warnings: nat

    function State(): CpuState
      reads this
    {
      CpuState(intBlocks, enabled, warnings)
    }

    ghost predicate Valid()
      reads this
    {
      Inv(State())
    }

    /** Boot state: counter zero, interrupt flag as the boot code left it. */
    constructor (flag: bool)
      ensures Valid() && State() == CpuState(0, flag, 0)
    {
      intBlocks, enabled, warnings := 0, flag, 0;
    }

    /** `no_ints` (src/kernel/interrupt.h:14-17). */
    method NoInts()
      requires Valid()
      modifies this
      ensures Valid()
      ensures State() == AfterNoInts(old(State()))
      ensures old(intBlocks) < U64 - 1 ==> intBlocks == old(intBlocks) + 1
      ensures !enabled
    {
      enabled := false;
      intBlocks := (intBlocks + 1) % U64;
    }

    /** `ints_okay_once_on` (src/kernel/interrupt.h:19-26). */
    method IntsOkayOnceOn()
      requires Valid()
      modifies this
      ensures State() == AfterOnceOn(old(State()))
    {
      if intBlocks <= 0 {
        warnings := warnings + 1;
        return;
      }
      intBlocks := intBlocks - 1;
    }

    /** `ints_okay` (src/kernel/interrupt.h:28-33). */
    method IntsOkay()
      requires Valid()
      modifies this
      ensures Valid()
      ensures State() == AfterIntsOkay(old(State()))
      ensures enabled <==> intBlocks == 0 || old(enabled)
      ensures intBlocks == if old(intBlocks) == 0 then 0 else old(intBlocks) - 1
    {
      IntsOkayOnceOn();
      if intBlocks == 0 {
        enabled := true;
      }
    }
  }
}
