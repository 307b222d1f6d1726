# Single-port RAM with chip select

A model of Digital's `RAMSinglePortSel`: one RAM with one address port, a chip
select (CS), a write enable (WE, the clocking input), an output enable (OE) and a
bidirectional data pin. The simulator evaluates it in two phases every time
the network settles.
- The observe phase (`readInputs`) latches CS, WE and, while selected, the
  address and OE. It turns the level `CS && WE` into edges by comparing it with
  `lastWrite`. The rising edge latches the write address. The falling edge stores
  the data-in level sampled at that moment into the word at the latched write
  address.
- The produce phase (`writeOutputs`) drives the word at the latched read address
  when `CS && OE && !WE` holds. Otherwise it releases the bus (high impedance).

Two modules:
- `RamSpec` (`ram_spec.dfy`) is the state machine on values. `Observe` is the
  observe phase, `Produce` the produce phase and `Run` a sequence of observe
  phases, as the simulator's settling loop calls them. The lemmas state what the
  machine guarantees over one evaluation and over sequences of evaluations.
- `Memory` (`ram_single_port_sel.dfy`) is the component as a class. It has the
  latched fields and a word array of `2^addrBits` entries. `ReadInputs` updates
  them in place, and its contract is that the new state is `Observe` of the old
  one. `Output` reads the latched state and is `Produce` of it. Because `Output`
  is a function, the produce phase cannot change any field or word.

The input pins are plain parameters of `ReadInputs`. Their widths are checked
when the component is wired (`setInputs`), so the address level always lies in
`0 .. 2^addrBits - 1`. `ReadInputs` therefore requires it.

## Model

| member | source | states |
|---|---|---|
| `RamSpec.Pow2` | src/main/java/de/neemann/digital/core/memory/RAMSinglePortSel.java:67 | the capacity `1 << addrBits` is at least one word and doubles with each address bit |
| `RamSpec.Initial` | src/main/java/de/neemann/digital/core/memory/RAMSinglePortSel.java:63-75 | a fresh RAM has both addresses in range, all words zero (so within any width), chip select low and no write pending |
| `RamSpec.Observe` | src/main/java/de/neemann/digital/core/memory/RAMSinglePortSel.java:98-115 | CS and WE are always latched. Address and OE are latched only while selected and kept otherwise. `lastWrite` becomes `cs && we`. The write address moves only on a rising edge, to the address level. Storage changes only on a falling edge, and only the word at the latched write address, which receives data-in. The latched addresses stay in range. |
| `RamSpec.Produce` | src/main/java/de/neemann/digital/core/memory/RAMSinglePortSel.java:117-124 | the bus is driven exactly when `cs && oe && !we` is latched, and then with the word at the latched read address; otherwise high impedance |
| `RamSpec.Run` | src/main/java/de/neemann/digital/core/memory/RAMSinglePortSel.java:98-115 | repeated observe phases keep the latched addresses in range and the capacity unchanged |
| `RamSpec.ReleasedWhenDeselectedOrWriting` | src/main/java/de/neemann/digital/core/memory/RAMSinglePortSel.java:119-123 | with chip select low, or with chip select and write enable both high, the bus is released |
| `RamSpec.ProduceIgnoresWriteState` | src/main/java/de/neemann/digital/core/memory/RAMSinglePortSel.java:117-124 | the produce phase depends only on cs, oe, we, the read address and the words, not on the write address or `lastWrite` |
| `RamSpec.ObserveIdempotent` | src/main/java/de/neemann/digital/core/memory/RAMSinglePortSel.java:98-115 | a second observe phase with identical levels changes neither storage nor any latch |
| `RamSpec.ObserveKeepsWordsFit` | src/main/java/de/neemann/digital/core/memory/RAMSinglePortSel.java:110-113 | if every word and the data-in level fit the word width, every word still fits after an observe phase |
| `RamSpec.RunAppend` | src/main/java/de/neemann/digital/core/memory/RAMSinglePortSel.java:98-115 | evaluating two level sequences one after the other equals evaluating their concatenation |
| `RamSpec.SettlingIsIdempotent` | src/main/java/de/neemann/digital/core/memory/RAMSinglePortSel.java:98-115 | any number of settling evaluations with unchanged levels gives the state of the first one (at most one commit, no re-latch) |
| `RamSpec.HeldPulseKeepsTarget` | src/main/java/de/neemann/digital/core/memory/RAMSinglePortSel.java:106-113 | while `cs && we` stays high, changing the address and data levels moves neither the write target nor any word |
| `RamSpec.DeselectedIgnoresReadInputs` | src/main/java/de/neemann/digital/core/memory/RAMSinglePortSel.java:99-103 | while chip select is low, the read address and OE latches keep their values whatever the inputs, and the bus is released |
| `RamSpec.WriteThenReadRoundTrip` | src/main/java/de/neemann/digital/core/memory/RAMSinglePortSel.java:98-124 | raising `cs && we` at address `a`, holding it for any number of evaluations, dropping it with data-in `v`, then reading `a` drives `v`; every other word is unchanged |
| `Memory.RamSinglePortSel.constructor` | src/main/java/de/neemann/digital/core/memory/RAMSinglePortSel.java:63-75 | the RAM has `2^addrBits` zero words, cleared latches, and a released bus |
| `Memory.RamSinglePortSel.ReadInputs` | src/main/java/de/neemann/digital/core/memory/RAMSinglePortSel.java:98-115 | updates the fields and the word array in place so that the new state is `Observe` of the old state and the levels. It keeps the same array and keeps the latched addresses in range. |
| `Memory.RamSinglePortSel.Output` | src/main/java/de/neemann/digital/core/memory/RAMSinglePortSel.java:117-124 | the bus value is `Produce` of the current state. It only reads the fields and the words. |
| `Memory.WriteCycleThenRead` | src/main/java/de/neemann/digital/core/memory/RAMSinglePortSel.java:98-124 | on a fresh RAM, a write pulse at `a` dropped with data-in `v`, followed by a read of `a`, drives exactly `v` |

## Left out

- Memory.RamSinglePortSel.constructor: requires `addrBits <= 30`. Only there does Java's 32-bit `1 << addrBits` equal `2^addrBits`, and the `(int)` address casts lose nothing. The attribute's permitted range is enforced outside this class.
- Wiring and host plumbing: observable values, observer registration, the width checks in `setInputs`, the data-out pin and `getOutputs`. They belong to the simulation engine. Inputs are parameters, and the bus value is the result of `Output`.
- `DataField` internals (`setData`, `getDataWord`, `setDataFrom`): `DataField` is not part of this model. The word array stores the sampled data-in value as given. Any masking to the word width is not modelled; `RamSpec.ObserveKeepsWordsFit` states the width invariant under the assumption that data-in fits.
- `setData` (replacing the whole data field) and `setProgramMemory` (copying from another data field): both only hand over to `DataField`, whose behaviour is not visible here.
- Trivial accessors (`getMemory`, `getLabel`, `getSize`, `getDataBits`, `getAddrBits`, `isProgramMemory`) and the `createDataField` hook. The label and the program-memory flag are not modelled.
- The simulator's settle-to-fixpoint loop: it is external and is represented only as a sequence of observe phases (`RamSpec.Run`).
- Errors raised by unavailable input signals (`NodeException`): they come from the engine's signal values, which are parameters here.
