/**
 * One LowMC evaluation inside the MPC simulation (`Mpc_lowmc64`): a gadget that
 * owns a region of the random tapes starting at its offset. Only its footprint
 * constants, its offset bookkeeping and its aux-bit cursor discipline are
 * modelled; the circuit itself is one of the abstract primitives.
 */
module Gadget {
  import opened Params
  import opened Primitives

  /** Tape bits the gadget reads for masks of its own (none). */
  const OffsetBits: nat := 0
  /** Aux bits the gadget contributes to a proof: one per AND gate. */
  const AuxBits: nat := AndsBits
  /** Tape bits the gadget owns from its offset on. */
  const TapeBits: nat := GadgetTapeBits
  /** Bits `SetOffsets` moves the cursor by. */
  const Span: nat := OffsetBits + TapeBits

  /** The footprint constants: the tape region is twice the aux size, and there is no local mask. */
  lemma Footprint()
    ensures OffsetBits == 0 && AuxBits == AndsBits && TapeBits == 2 * AuxBits && Span == TapeBits
  {
  }

  class MpcLowmc64 {
    /** Start of the gadget's tape region, `NullOffset` until assigned. */
    var offset: TapeOffset

    constructor ()
      ensures offset == NullOffset
    {
      offset := NullOffset;
    }

    /** Places the gadget at `of` and returns the first offset after its region. */
    method SetOffsets(of: TapeOffset) returns (next: TapeOffset)
      modifies this
      ensures offset == of
      ensures next == OffsetAdd(of, Span)
      ensures OffsetSub(next, of) == Span
    {
      offset := of;
      next := OffsetAdd(of, Span);
      OffsetConservation(of, Span);
    }

    /**
     * Copies the gadget's aux bits into `buf` at cursor `pos` and advances the
     * cursor past them, so that consecutive calls lay out consecutive gadgets.
     */
    method GetAuxBits(p: Primitives, tape: RandomTape, buf: array<bool>, pos: nat) returns (next: nat)
      requires AuxLaws(p)
      requires pos + AuxBits <= buf.Length
      modifies buf
      ensures next == pos + AuxBits
      ensures buf[pos..next] == p.auxGet(tape, offset)
      ensures buf[..pos] == old(buf[..pos]) && buf[next..] == old(buf[next..])
    {
      var bits := p.auxGet(tape, offset);
      forall j | pos <= j < pos + AuxBits {
        buf[j] := bits[j - pos];
      }
      next := pos + AuxBits;
    }

    /**
     * Stores the `AuxBits` bits of `buf` at cursor `pos` as the gadget's aux bits
     * and advances the cursor past them.
     */
    method SetAuxBits(p: Primitives, tape: RandomTape, buf: seq<bool>, pos: nat) returns (tape': RandomTape, next: nat)
      requires pos + AuxBits <= |buf|
      ensures next == pos + AuxBits
      ensures tape' == p.auxSet(tape, offset, buf[pos..next])
    {
      next := pos + AuxBits;
      tape' := p.auxSet(tape, offset, buf[pos..next]);
    }
  }
}
