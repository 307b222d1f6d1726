/**
 The RAM component itself: latched control fields and a word array that the
 observe phase updates in place, and a produce phase that only reads them.
 Every operation is specified by the state machine of module RamSpec.
 */
module Memory {
  import opened RamSpec

  class RamSinglePortSel {
    /** Word width in bits. */
    const bits: nat
    /** Address width in bits. */
    const addrBits: nat
    /** Number of words, 2^addrBits. */
    const size: nat

    var memory: array<int>

    var readAddr: int
    var writeAddr: int
    var cs: bool
    var oe: bool
    var we: bool
    var lastWrite: bool

    /** The array has the declared capacity and both latched addresses point into it. */
    ghost predicate Valid()
      reads this
    {
      && size == Pow2(addrBits)
      && memory.Length == size
      && 0 <= readAddr < size
      && 0 <= writeAddr < size
    }

    /** The component's state as a value of the state machine. */
    ghost function State(): (r: Ram)
      reads this, memory
      requires Valid()
      ensures WellFormed(r) && |r.cells| == size
    {
      Ram(Latch(readAddr, writeAddr, cs, oe, we, lastWrite), memory[..])
    }

    /**
     A RAM of 2^addrBits words, all zero, with every latch cleared and the bus
     released.
     */
    constructor (addrBits: nat, bits: nat)
      requires addrBits <= 30
      ensures this.addrBits == addrBits && this.bits == bits && size == Pow2(addrBits)
      ensures Valid() && fresh(memory)
      ensures State() == Initial(size)
      ensures Output() == HighZ
    {
      this.bits := bits;
      this.addrBits := addrBits;
      size := Pow2(addrBits);
      new;
      memory := new int[size](_ => 0);
      readAddr, writeAddr := 0, 0;
      cs, oe, we, lastWrite := false, false, false, false;
    }

    /**
     The observe phase: sample the input levels and update the latches and, on
     the falling edge of `cs && we`, the word at the latched write address.
     */
    method ReadInputs(addrIn: int, csIn: bool, weIn: bool, oeIn: bool, dataIn: int)
      requires Valid() && 0 <= addrIn < size
      modifies this, memory
      ensures Valid() && memory == old(memory)
      ensures State() == Observe(old(State()), Levels(addrIn, csIn, weIn, oeIn, dataIn))
    {
      cs := csIn;
      if cs {
        readAddr := addrIn;
        oe := oeIn;
      }

      we := weIn;
      var write := cs && we;
      if write && !lastWrite {
        writeAddr := addrIn;
      }

      if !write && lastWrite {
        memory[writeAddr] := dataIn;
      }
      lastWrite := write;
    }

    /** The produce phase: the bus value, from the latched state alone. */
    function Output(): (r: Bus)
      reads this, memory
      requires Valid()
      ensures r == Produce(State())
    {
      if cs && oe && !we then Driven(memory[readAddr]) else HighZ
    }
  }

  /**
   A complete write cycle on a fresh RAM followed by a read: raise `cs && we` at
   address `a`, drop it while data-in carries `v`, then select with output
   enabled and write disabled at `a`. The bus carries `v`.
   */
  method WriteCycleThenRead(addrBits: nat, bits: nat, a: int, v: int) returns (out: Bus)
    requires addrBits <= 30 && 0 <= a < Pow2(addrBits)
    ensures out == Driven(v)
  {
    var ram := new RamSinglePortSel(addrBits, bits);
    ram.ReadInputs(a, true, true, false, 0);
    ram.ReadInputs(a, true, false, false, v);
    ram.ReadInputs(a, true, false, true, 0);
    out := ram.Output();
  }
}
