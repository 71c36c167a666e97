/**
 * The revocation check of one signature-based revocation list entry
 * (`Mpc_sigrl_entry`): two chained LowMC gadgets, the first keyed by the
 * signer's secret key on the entry's `first` value, the second keyed by that
 * intermediate state on the signature's `r` value, with a fresh mask on the
 * intermediate state.
 */
module SigrlEntry {
  import opened Options
  import opened Params
  import opened LowmcState
  import opened Primitives
  import Gadget
  import opened RevocationLists

  /** Tape bits the entry reads for its own mask: the intermediate state's mask. */
  const LocalOffsetBits: nat := StateBits
  const OffsetBits: nat := 2 * Gadget.OffsetBits + LocalOffsetBits
  const TapeBits: nat := 2 * Gadget.TapeBits
  const AuxBits: nat := 2 * Gadget.AuxBits
  /** Bits `SetOffsets` moves the cursor by. */
  const Span: nat := OffsetBits + TapeBits

  /**
   * The revocation check value of a signature for one list entry:
   * `LowMC(LowMC(sku, first), r)`, as an `Epid_arl_entry`.
   */
  function CalculateEpidArlEntry(p: Primitives, r: State, sku: State, srl: EpidSigrlEntry): (a: RlEntry)
    ensures a.Single?
  {
    var intermediate := p.lowmc(sku, srl.first);
    Single(p.lowmc(intermediate, r))
  }

  /** Where the entry's first gadget starts when the entry is placed at `of`. */
  function GadgetAOffset(of: TapeOffset): TapeOffset
  {
    OffsetAdd(of, LocalOffsetBits)
  }

  /** Where the entry's second gadget starts when the entry is placed at `of`. */
  function GadgetAJOffset(of: TapeOffset): TapeOffset
  {
    OffsetAdd(GadgetAOffset(of), Gadget.Span)
  }

  /**
   * Placed at an offset that leaves room, the entry's three regions — the
   * intermediate mask, gadget a, gadget a_j — are adjacent and fill exactly
   * `Span` bits.
   */
  lemma Layout(of: TapeOffset)
    requires of + Span <= Modulus32
    ensures GadgetAOffset(of) == of + StateBits
    ensures GadgetAJOffset(of) == GadgetAOffset(of) + Gadget.TapeBits
    ensures GadgetAJOffset(of) + Gadget.TapeBits == of + Span
  {
  }

  /** What the entry's aux computation produces from tapes `tape`. */
  datatype AuxOut = AuxOut(tape: RandomTape, adjA: State, adjI: State)

  /**
   * The aux computation of an entry whose intermediate mask sits at `imo` and
   * whose gadgets sit at `aOff` and `ajOff`: gadget a's output mask is the
   * intermediate mask, gadget a_j's is zero, and the adjustment handed to the
   * a_j input carries the intermediate mask on top of gadget a_j's own
   * adjustment.
   */
  function AuxSpec(p: Primitives, tape: RandomTape, imo: TapeOffset, aOff: TapeOffset, ajOff: TapeOffset): (r: AuxOut)
    ensures var mask := p.maskFromTapes(tape, imo);
            var a := p.gadgetAux(tape, aOff, Zero(), mask);
            r.adjA == a.adjustment && Xor(r.adjI, mask) == p.gadgetAux(a.tape, ajOff, Zero(), Zero()).adjustment
  {
    var mask := p.maskFromTapes(tape, imo);
    var a := p.gadgetAux(tape, aOff, Zero(), mask);
    var aj := p.gadgetAux(a.tape, ajOff, Zero(), Zero());
    XorAssoc(aj.adjustment, mask, mask);
    XorSelf(mask);
    XorZero(aj.adjustment);
    AuxOut(aj.tape, a.adjustment, Xor(aj.adjustment, mask))
  }

  /**
   * The aux computation leaves the mask of any state-sized region below the
   * entry's first gadget (or past its second) as it was.
   */
  lemma AuxKeepsMask(p: Primitives, tape: RandomTape, imo: TapeOffset, aOff: TapeOffset, ajOff: TapeOffset, m: TapeOffset)
    requires MaskFootprint(p)
    requires m + StateBits <= aOff && m + StateBits <= ajOff
    ensures p.maskFromTapes(AuxSpec(p, tape, imo, aOff, ajOff).tape, m) == p.maskFromTapes(tape, m)
  {
  }

  /** What the entry's simulation produces; `output` is `None` when the output buffer is not written. */
  datatype EntrySim = EntrySim(ok: bool, output: Option<State>, msgs: Msgs)

  /**
   * The simulation of an entry: gadget a on the re-masked key and the list
   * entry's `first`; when it succeeds, gadget a_j on gadget a's output with the
   * intermediate-mask adjustment XORed in, keyed into the signature's `r`.
   */
  function SimSpec(p: Primitives, tape: RandomTape, aOff: TapeOffset, ajOff: TapeOffset,
                   remaskedSku: State, first: State, iMaskAdj: State, rValue: State, msgs: Msgs): (r: EntrySim)
    ensures var a := p.gadgetSim(tape, aOff, remaskedSku, first, msgs);
            (!a.ok ==> !r.ok && r.output == None && r.msgs == a.msgs) &&
            (a.ok ==> r == var aj := p.gadgetSim(tape, ajOff, Xor(a.output, iMaskAdj), rValue, a.msgs);
                           EntrySim(aj.ok, Some(aj.output), aj.msgs))
  {
    var a := p.gadgetSim(tape, aOff, remaskedSku, first, msgs);
    if !a.ok then EntrySim(false, None, a.msgs)
    else
      var aj := p.gadgetSim(tape, ajOff, Xor(a.output, iMaskAdj), rValue, a.msgs);
      EntrySim(aj.ok, Some(aj.output), aj.msgs)
  }

  class MpcSigrlEntry {
    /** Offset of the intermediate state's mask. */
    var intermediateMaskOffset: TapeOffset
    /** Gadget computing LowMC(sku, first). */
    const lowmcA: Gadget.MpcLowmc64
    /** Gadget computing LowMC(intermediate, r). */
    const lowmcAJ: Gadget.MpcLowmc64

    ghost predicate Valid()
    {
      lowmcA != lowmcAJ
    }

    /** The entry's regions as `SetOffsets(of)` assigns them. */
    ghost predicate PlacedAt(of: TapeOffset)
      reads this, lowmcA, lowmcAJ
    {
      intermediateMaskOffset == of && lowmcA.offset == GadgetAOffset(of) && lowmcAJ.offset == GadgetAJOffset(of)
    }

    constructor ()
      ensures Valid() && fresh(lowmcA) && fresh(lowmcAJ)
      ensures intermediateMaskOffset == NullOffset && lowmcA.offset == NullOffset && lowmcAJ.offset == NullOffset
    {
      intermediateMaskOffset := NullOffset;
      lowmcA := new Gadget.MpcLowmc64();
      lowmcAJ := new Gadget.MpcLowmc64();
    }

    /**
     * Places the intermediate mask at `of`, gadget a after it and gadget a_j
     * after that, and returns the first offset after the entry's regions.
     */
    method SetOffsets(of: TapeOffset) returns (next: TapeOffset)
      requires Valid()
      modifies this, lowmcA, lowmcAJ
      ensures Valid() && PlacedAt(of)
      ensures next == OffsetAdd(of, Span)
    {
      intermediateMaskOffset := of;
      next := OffsetAdd(of, LocalOffsetBits);
      next := lowmcA.SetOffsets(next);
      next := lowmcAJ.SetOffsets(next);
      OffsetAddAdd(of, LocalOffsetBits, Gadget.Span);
      OffsetAddAdd(of, LocalOffsetBits + Gadget.Span, Gadget.Span);
      OffsetConservation(of, Span);
      assert OffsetSub(next, of) == OffsetBits + TapeBits;
    }

    /**
     * Computes both gadgets' aux bits into the tapes and, for each output the
     * caller asks for, the sku-mask adjustment of gadget a and the
     * intermediate-mask adjustment of gadget a_j.
     */
    method ComputeAuxTape(p: Primitives, tape: RandomTape, wantSkuAdj: bool, wantIAdj: bool) returns (r: EntryAux)
      ensures var s := AuxSpec(p, tape, intermediateMaskOffset, lowmcA.offset, lowmcAJ.offset);
              r.tape == s.tape &&
              r.adjSkuMask == (if wantSkuAdj then Some(s.adjA) else None) &&
              r.adjIMask == (if wantIAdj then Some(s.adjI) else None)
    {
      var intermediateMask := p.maskFromTapes(tape, intermediateMaskOffset);
      var a := p.gadgetAux(tape, lowmcA.offset, Zero(), intermediateMask);
      var aj := p.gadgetAux(a.tape, lowmcAJ.offset, Zero(), Zero());
      var adjI: Option<State> := None;
      if wantIAdj {
        adjI := Some(Xor(aj.adjustment, intermediateMask));
      }
      r := EntryAux(aj.tape, if wantSkuAdj then Some(a.adjustment) else None, adjI);
    }

    /** Simulates both gadgets; stops after gadget a when it fails. */
    method MpcSimulate(p: Primitives, tape: RandomTape, remaskedSku: State, first: State, iMaskAdj: State,
                       rValue: State, msgs: Msgs) returns (r: EntrySim)
      ensures r == SimSpec(p, tape, lowmcA.offset, lowmcAJ.offset, remaskedSku, first, iMaskAdj, rValue, msgs)
    {
      var a := p.gadgetSim(tape, lowmcA.offset, remaskedSku, first, msgs);
      if !a.ok {
        return EntrySim(false, None, a.msgs);
      }
      var intermediate := Xor(a.output, iMaskAdj);
      var aj := p.gadgetSim(tape, lowmcAJ.offset, intermediate, rValue, a.msgs);
      r := EntrySim(aj.ok, Some(aj.output), aj.msgs);
    }

    /** Copies gadget a's then gadget a_j's aux bits into `buf` from cursor `pos` on. */
    method GetAuxBits(p: Primitives, tape: RandomTape, buf: array<bool>, pos: nat) returns (next: nat)
      requires Valid() && AuxLaws(p)
      requires pos + AuxBits <= buf.Length
      modifies buf
      ensures next == pos + AuxBits
      ensures buf[pos..pos + Gadget.AuxBits] == p.auxGet(tape, lowmcA.offset)
      ensures buf[pos + Gadget.AuxBits..next] == p.auxGet(tape, lowmcAJ.offset)
      ensures buf[..pos] == old(buf[..pos]) && buf[next..] == old(buf[next..])
    {
      var mid := lowmcA.GetAuxBits(p, tape, buf, pos);
      ghost var afterA := buf[..];
      next := lowmcAJ.GetAuxBits(p, tape, buf, mid);
      assert buf[pos..mid] == afterA[pos..mid] by {
        assert buf[..mid] == afterA[..mid];
      }
    }

    /** Stores gadget a's then gadget a_j's aux bits from `buf` at cursor `pos`. */
    method SetAuxBits(p: Primitives, tape: RandomTape, buf: seq<bool>, pos: nat) returns (tape': RandomTape, next: nat)
      requires pos + AuxBits <= |buf|
      ensures next == pos + AuxBits
      ensures tape' == p.auxSet(p.auxSet(tape, lowmcA.offset, buf[pos..pos + Gadget.AuxBits]),
                                lowmcAJ.offset, buf[pos + Gadget.AuxBits..next])
    {
      var t, mid := lowmcA.SetAuxBits(p, tape, buf, pos);
      tape', next := lowmcAJ.SetAuxBits(p, t, buf, mid);
    }
  }

  /** What the entry's aux computation writes to the caller's buffers. */
  datatype EntryAux = EntryAux(tape: RandomTape, adjSkuMask: Option<State>, adjIMask: Option<State>)
}
