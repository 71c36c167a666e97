/**
 * The cryptographic building blocks the core calls but does not define: the
 * LowMC cipher, reading a mask from the parties' random tapes, the per-gadget
 * aux-tape computation and MPC simulation of one LowMC evaluation, reading and
 * writing one gadget's aux bits, and the SHAKE-based hash. They are passed to
 * the model as function values, together with the footprint laws the core's
 * offset layout relies on.
 */
module Primitives {
  import opened Params
  import opened LowmcState

  /** `randomTape_t`: one byte string per party and a read position. */
  datatype RandomTape = RandomTape(tape: seq<seq<bv8>>, pos: nat)

  /** `msgs_t`: one broadcast-message byte string per party and the bit position written so far. */
  datatype Msgs = Msgs(msgs: seq<seq<bv8>>, pos: nat)

  /** What a gadget's aux computation leaves: the tapes with its aux bits written, and the key-mask adjustment. */
  datatype AuxResult = AuxResult(tape: RandomTape, adjustment: State)

  /** What a gadget's simulation leaves: its status, the masked output it writes, and the extended messages. */
  datatype SimResult = SimResult(ok: bool, output: State, msgs: Msgs)

  datatype Primitives = Primitives(
    /** `lowmc(key, plaintext)`: one LowMC encryption. */
    lowmc: (State, State) -> State,
    /** The XOR over all parties of the tape bits at an offset: the mask of a wire. */
    maskFromTapes: (RandomTape, TapeOffset) -> State,
    /** One gadget's aux computation at its offset, given plaintext mask and output mask. */
    gadgetAux: (RandomTape, TapeOffset, State, State) -> AuxResult,
    /** One gadget's simulation at its offset on a masked key and a masked plaintext. */
    gadgetSim: (RandomTape, TapeOffset, State, State, Msgs) -> SimResult,
    /** The aux bits of the gadget at an offset, as stored in the last party's tape. */
    auxGet: (RandomTape, TapeOffset) -> seq<bool>,
    /** Stores aux bits for the gadget at an offset into the last party's tape. */
    auxSet: (RandomTape, TapeOffset, seq<bool>) -> RandomTape,
    /** Hash of a byte transcript, squeezed to the given number of bytes. */
    hash: (seq<bv8>, nat) -> seq<bv8>)

  /** The bits one gadget owns on the tape: `2 * AndsBits` from its offset. */
  const GadgetTapeBits: nat := 2 * AndsBits

  /**
   * A gadget's aux computation leaves untouched the mask of every state-sized
   * region lying outside the gadget's own tape region.
   */
  ghost predicate MaskFootprint(p: Primitives)
  {
    forall t: RandomTape, o: TapeOffset, pm: State, km: State, m: TapeOffset ::
      m + StateBits <= o || o + GadgetTapeBits <= m ==>
        p.maskFromTapes(p.gadgetAux(t, o, pm, km).tape, m) == p.maskFromTapes(t, m)
  }

  /**
   * Aux bits of a gadget are `AndsBits` long, reading back what was stored,
   * and storing them for one gadget leaves those of a gadget whose region does
   * not overlap unchanged.
   */
  ghost predicate AuxLaws(p: Primitives)
  {
    (forall t: RandomTape, o: TapeOffset :: |p.auxGet(t, o)| == AndsBits) &&
    (forall t: RandomTape, o: TapeOffset, b: seq<bool> ::
       |b| == AndsBits ==> p.auxGet(p.auxSet(t, o, b), o) == b) &&
    (forall t: RandomTape, o: TapeOffset, o2: TapeOffset, b: seq<bool> ::
       o + GadgetTapeBits <= o2 || o2 + GadgetTapeBits <= o ==>
         p.auxGet(p.auxSet(t, o, b), o2) == p.auxGet(t, o2))
  }

  /** The hash squeezes exactly as many bytes as asked. */
  ghost predicate HashLaws(p: Primitives)
  {
    forall x: seq<bv8>, n: nat :: |p.hash(x, n)| == n
  }
}
