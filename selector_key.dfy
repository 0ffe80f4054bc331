/**
 * NioSelectorKey: the interest set of a selection key, switched on and off
 * one flag at a time. The flags are the JDK's SelectionKey.OP_READ (1) and
 * SelectionKey.OP_WRITE (4).
 */
module SelectorKeys {
  /**
   * The interest set. The source holds it in a Java int; every interest flag
   * the JDK defines lies in the low byte, so eight bits carry all of it.
   */
  type Ops = bv8

  const OpRead: Ops := 1
  const OpWrite: Ops := 4

  /** A single interest flag. */
  predicate IsFlag(flag: Ops) {
    flag == OpRead || flag == OpWrite
  }

  predicate Has(ops: Ops, flag: Ops) {
    ops & flag == flag
  }

  /** ops | flag, as enableRead and enableWrite compute it. */
  function With(ops: Ops, flag: Ops): Ops {
    ops | flag
  }

  /** ops & ~flag, as disableRead and disableWrite compute it. */
  function Without(ops: Ops, flag: Ops): Ops {
    ops & !flag
  }

  /** Enabling a flag turns it on and leaves every other bit as it was. */
  lemma EnableChangesOnlyTheFlag(ops: Ops, flag: Ops)
    requires IsFlag(flag)
    ensures Has(With(ops, flag), flag) && With(ops, flag) & !flag == ops & !flag
  {
  }

  /** Disabling a flag turns it off and leaves every other bit as it was. */
  lemma DisableChangesOnlyTheFlag(ops: Ops, flag: Ops)
    requires IsFlag(flag)
    ensures !Has(Without(ops, flag), flag) && Without(ops, flag) & !flag == ops & !flag
  {
  }

  /** Enabling or disabling a flag twice is the same as once. */
  lemma Idempotent(ops: Ops, flag: Ops)
    requires IsFlag(flag)
    ensures With(With(ops, flag), flag) == With(ops, flag)
    ensures Without(Without(ops, flag), flag) == Without(ops, flag)
  {
  }

  /**
   * Disabling after enabling clears the flag whatever its earlier state, and
   * enabling after disabling sets it.
   */
  lemma EnableThenDisable(ops: Ops, flag: Ops)
    requires IsFlag(flag)
    ensures Without(With(ops, flag), flag) == Without(ops, flag)
    ensures With(Without(ops, flag), flag) == With(ops, flag)
  {
  }

  /** Switching read interest never changes write interest, and the reverse. */
  lemma FlagsIndependent(ops: Ops)
    ensures Has(With(ops, OpRead), OpWrite) == Has(ops, OpWrite)
    ensures Has(Without(ops, OpRead), OpWrite) == Has(ops, OpWrite)
    ensures Has(With(ops, OpWrite), OpRead) == Has(ops, OpRead)
    ensures Has(Without(ops, OpWrite), OpRead) == Has(ops, OpRead)
  {
  }

  class NioSelectorKey {
    var interestOps: Ops

    constructor(interestOps: Ops)
      ensures this.interestOps == interestOps
    {
      this.interestOps := interestOps;
    }

    /** enableRead: switches read interest on and leaves every other bit. */
    method EnableRead()
      modifies this
      ensures Has(interestOps, OpRead) && interestOps & !OpRead == old(interestOps) & !OpRead
    {
      interestOps := interestOps | OpRead;
    }

    /** disableRead: switches read interest off and leaves every other bit. */
    method DisableRead()
      modifies this
      ensures !Has(interestOps, OpRead) && interestOps & !OpRead == old(interestOps) & !OpRead
    {
      interestOps := interestOps & !OpRead;
    }

    /** enableWrite: switches write interest on and leaves every other bit. */
    method EnableWrite()
      modifies this
      ensures Has(interestOps, OpWrite) && interestOps & !OpWrite == old(interestOps) & !OpWrite
    {
      interestOps := interestOps | OpWrite;
    }

    /** disableWrite: switches write interest off and leaves every other bit. */
    method DisableWrite()
      modifies this
      ensures !Has(interestOps, OpWrite) && interestOps & !OpWrite == old(interestOps) & !OpWrite
    {
      interestOps := interestOps & !OpWrite;
    }
  }
}
