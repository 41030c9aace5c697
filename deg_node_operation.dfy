/**
 * Depsgraph operation node: the status-flag bitmask of an operation, the
 * flag sets the evaluator flushes and clears, and the per-node record the
 * scheduler updates (pending in-link counter, scheduled flag).
 */
module DepsgraphOperation {

  /* OperationFlag: one bit each, so that they accumulate in one bitmask. */
  const NEEDS_UPDATE: bv32 := 1 << 0
  const DIRECTLY_MODIFIED: bv32 := 1 << 1
  const USER_MODIFIED: bv32 := 1 << 2
  /** The node may not be removed, even as a no-op without outgoing relations. */
  const PINNED: bv32 := 1 << 3
  const AFFECTS_VISIBILITY: bv32 := 1 << 4
  const MUTE: bv32 := 1 << 5

  /** Flags that get flushed along the relations. */
  const FLUSH: bv32 := USER_MODIFIED
  /** Flags that get cleared upon evaluation. */
  const CLEAR_ON_EVAL: bv32 := DIRECTLY_MODIFIED | NEEDS_UPDATE | USER_MODIFIED

  predicate SingleBit(b: bv32) {
    b != 0 && b & (b - 1) == 0
  }

  /** The six flags are single bits, pairwise distinct. */
  lemma {:induction false} FlagsAreDistinctBits()
    ensures SingleBit(NEEDS_UPDATE) && SingleBit(DIRECTLY_MODIFIED) && SingleBit(USER_MODIFIED)
    ensures SingleBit(PINNED) && SingleBit(AFFECTS_VISIBILITY) && SingleBit(MUTE)
    ensures NEEDS_UPDATE & (DIRECTLY_MODIFIED | USER_MODIFIED | PINNED | AFFECTS_VISIBILITY | MUTE) == 0
    ensures DIRECTLY_MODIFIED & (USER_MODIFIED | PINNED | AFFECTS_VISIBILITY | MUTE) == 0
    ensures USER_MODIFIED & (PINNED | AFFECTS_VISIBILITY | MUTE) == 0
    ensures PINNED & (AFFECTS_VISIBILITY | MUTE) == 0
    ensures AFFECTS_VISIBILITY & MUTE == 0
  {
  }

  /** The flush set is exactly USER_MODIFIED and lies inside the clear-on-eval set. */
  lemma {:induction false} FlushWithinClearOnEval()
    ensures FLUSH == USER_MODIFIED
    ensures FLUSH & CLEAR_ON_EVAL == FLUSH
    ensures CLEAR_ON_EVAL & (PINNED | AFFECTS_VISIBILITY | MUTE) == 0
  {
  }

  /** The flags an operation keeps after its evaluation. */
  function ClearedOnEval(flag: bv32): (r: bv32)
    ensures r & NEEDS_UPDATE == 0 && r & DIRECTLY_MODIFIED == 0 && r & USER_MODIFIED == 0
    ensures r & PINNED == flag & PINNED
    ensures r & AFFECTS_VISIBILITY == flag & AFFECTS_VISIBILITY
    ensures r & MUTE == flag & MUTE
    ensures r | (flag & CLEAR_ON_EVAL) == flag
  {
    flag & !CLEAR_ON_EVAL
  }

  /** Clearing is idempotent and leaves nothing to flush. */
  lemma {:induction false} ClearedOnEvalIdempotent(flag: bv32)
    ensures ClearedOnEval(ClearedOnEval(flag)) == ClearedOnEval(flag)
    ensures ClearedOnEval(flag) & FLUSH == 0
  {
  }

  /** `OperationCode`: which of the fixed operation kinds a node performs. */
  type OperationCode = nat

  /** An evaluation callback, identified by the callable it wraps. */
  datatype Callback = Callback(id: nat)

  datatype Option<T> = None | Some(value: T)

  /** `OperationNode`: the atomic unit of work of the dependency graph. */
  class OperationNode {
    /** Component that contains the operation (identified, not modelled). */
    const owner: nat
    /** Identifier of the operation being performed. */
    const opcode: OperationCode
    const nameTag: int

    /** Callback for the operation; unset for a no-op. */
    var evaluate: Option<Callback>
    /** How many in-links are still awaited before the node can be evaluated. */
    var numLinksPending: nat
    var scheduled: bool
    /** `OperationFlag` bits: extra settings affecting evaluation. */
    var flag: bv32

    /** The in-links the counter stands for in the current evaluation pass. */
    ghost var awaited: set<nat>

    ghost predicate Valid()
      reads this
    {
      numLinksPending == |awaited|
    }

    /**
     * A node as the builder creates it: no flags, nothing pending, not
     * scheduled.
     */
    constructor (owner: nat, opcode: OperationCode, nameTag: int, evaluate: Option<Callback>)
      ensures Valid()
      ensures this.owner == owner && this.opcode == opcode && this.nameTag == nameTag
      ensures this.evaluate == evaluate
      ensures flag == 0 && numLinksPending == 0 && !scheduled && awaited == {}
    {
      this.owner := owner;
      this.opcode := opcode;
      this.nameTag := nameTag;
      this.evaluate := evaluate;
      numLinksPending := 0;
      scheduled := false;
      flag := 0;
      awaited := {};
    }

    /** `is_noop`: no evaluation callback is set. */
    function IsNoop(): (r: bool)
      reads this
      ensures r <==> evaluate == None
    {
      evaluate.None?
    }

    /** `get_entry_operation`: an operation is its own entry point. */
    function GetEntryOperation(): (r: OperationNode)
      ensures r == this
    {
      this
    }

    /** `get_exit_operation`: an operation is its own exit point. */
    function GetExitOperation(): (r: OperationNode)
      ensures r == this
      ensures r == GetEntryOperation()
    {
      this
    }

    /**
     * Whether a graph clean-up may remove the node: a no-op without outgoing
     * relations that is not PINNED. This is the model's reading of the
     * comment on PINNED; the clean-up pass itself is not part of this model.
     */
    function MayBeRemoved(hasOutgoingRelations: bool): (r: bool)
      reads this
      ensures flag & PINNED != 0 ==> !r
      ensures r ==> IsNoop() && !hasOutgoingRelations
      ensures IsNoop() && !hasOutgoingRelations && flag & PINNED == 0 ==> r
    {
      IsNoop() && !hasOutgoingRelations && flag & PINNED == 0
    }

    /** Whether every awaited in-link has been satisfied. */
    function ReadyToEvaluate(): (r: bool)
      reads this
      ensures Valid() ==> (r <==> awaited == {})
    {
      numLinksPending == 0
    }

    /** Start of a pass: the counter is set to the number of in-links to await. */
    method ResetPending(inLinks: set<nat>)
      modifies this`numLinksPending, this`awaited
      ensures Valid() && awaited == inLinks
      ensures ReadyToEvaluate() <==> inLinks == {}
    {
      numLinksPending := |inLinks|;
      awaited := inLinks;
    }

    /** One awaited in-link is satisfied: the counter drops by one. */
    method InLinkSatisfied(link: nat)
      requires Valid() && link in awaited
      modifies this`numLinksPending, this`awaited
      ensures Valid()
      ensures numLinksPending == old(numLinksPending) - 1
      ensures awaited == old(awaited) - {link}
      ensures ReadyToEvaluate() <==> awaited == {}
    {
      numLinksPending := numLinksPending - 1;
      awaited := awaited - {link};
    }

    /**
     * Test-and-set of `scheduled`: a node is handed to the evaluator only
     * once it awaits nothing, and at most once per pass.
     */
    method TrySchedule() returns (dispatched: bool)
      modifies this`scheduled
      ensures dispatched <==> old(ReadyToEvaluate()) && !old(scheduled)
      ensures scheduled == (old(scheduled) || dispatched)
    {
      dispatched := numLinksPending == 0 && !scheduled;
      if dispatched {
        scheduled := true;
      }
    }

    /**
     * After its callback has run, the node drops its clear-on-eval flags.
     * Evaluation never changes whether the node may be removed: in
     * particular a PINNED node stays unremovable.
     */
    method ClearFlagsOnEval()
      modifies this`flag
      ensures flag == ClearedOnEval(old(flag))
      ensures forall h: bool :: MayBeRemoved(h) <==> old(MayBeRemoved(h))
      ensures old(flag) & PINNED != 0 ==> forall h: bool :: !MayBeRemoved(h)
    {
      flag := ClearedOnEval(flag);
      assert flag & PINNED == old(flag) & PINNED;
    }
  }
}
