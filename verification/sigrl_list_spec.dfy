/**
 * What the signature-based revocation list test computes in one repetition,
 * stated as functions of the tapes, the offsets and the inputs: the aux pass
 * (adjustments and the sku mask), the simulation pass (re-masked key, outputs,
 * messages, status), the verifier's accept rule, and the aux-bit layout. The
 * class in `SigrlList` is proved to compute these; the lemmas here state what
 * they guarantee.
 */
module SigrlListSpec {
  import opened Options
  import opened Params
  import opened LowmcState
  import opened Primitives
  import Gadget
  import SigrlEntry
  import opened RevocationLists
  import opened SigrlLayout

  /** The sku mask: read from the tapes at its offset, zero when none is assigned. */
  function SkuMask(p: Primitives, tape: RandomTape, skuOff: TapeOffset): State
  {
    if skuOff != NullOffset then p.maskFromTapes(tape, skuOff) else Zero()
  }

  /** The entries' aux passes, one after the other on the same tapes. */
  datatype AuxChainOut = AuxChainOut(tape: RandomTape, outs: seq<SigrlEntry.AuxOut>)

  /** The aux pass of the entries placed at `offs`, in list order. */
  function AuxChain(p: Primitives, tape: RandomTape, offs: seq<TapeOffset>): (r: AuxChainOut)
    ensures |r.outs| == |offs|
    decreases |offs|
  {
    if offs == [] then AuxChainOut(tape, [])
    else
      var prev := AuxChain(p, tape, offs[..|offs| - 1]);
      var o := EntryAux(p, prev.tape, offs[|offs| - 1]);
      AuxChainOut(o.tape, prev.outs + [o])
  }

  /** The aux pass of the entry placed at `of`. */
  function EntryAux(p: Primitives, tape: RandomTape, of: TapeOffset): SigrlEntry.AuxOut
  {
    SigrlEntry.AuxSpec(p, tape, of, SigrlEntry.GadgetAOffset(of), SigrlEntry.GadgetAJOffset(of))
  }

  /** One more entry extends the aux chain and its column by that entry's aux pass. */
  lemma AuxChainStep(p: Primitives, tape: RandomTape, offs: seq<TapeOffset>, e: nat, sstAdj: State, mask: State)
    requires e < |offs|
    ensures AuxChain(p, tape, offs[..e + 1]).tape == EntryAux(p, AuxChain(p, tape, offs[..e]).tape, offs[e]).tape
    ensures AuxChain(p, tape, offs[..e + 1]).outs ==
              AuxChain(p, tape, offs[..e]).outs + [EntryAux(p, AuxChain(p, tape, offs[..e]).tape, offs[e])]
    ensures AuxColumn(sstAdj, mask, AuxChain(p, tape, offs[..e + 1]).outs) ==
              AuxColumn(sstAdj, mask, AuxChain(p, tape, offs[..e]).outs) +
              [Xor(EntryAux(p, AuxChain(p, tape, offs[..e]).tape, offs[e]).adjA, mask),
               EntryAux(p, AuxChain(p, tape, offs[..e]).tape, offs[e]).adjI]
  {
    assert offs[..e + 1][..e] == offs[..e];
    var outs := AuxChain(p, tape, offs[..e + 1]).outs;
    assert outs[..|outs| - 1] == AuxChain(p, tape, offs[..e]).outs;
  }

  /**
   * The entries' aux passes leave the mask of a region lying below all their
   * gadgets as it was.
   */
  lemma {:induction false} AuxChainKeepsMask(p: Primitives, tape: RandomTape, offs: seq<TapeOffset>, m: TapeOffset)
    requires MaskFootprint(p)
    requires forall e :: 0 <= e < |offs| ==>
               m + StateBits <= SigrlEntry.GadgetAOffset(offs[e]) && m + StateBits <= SigrlEntry.GadgetAJOffset(offs[e])
    ensures p.maskFromTapes(AuxChain(p, tape, offs).tape, m) == p.maskFromTapes(tape, m)
    decreases |offs|
  {
    if offs != [] {
      var init := offs[..|offs| - 1];
      AuxChainKeepsMask(p, tape, init, m);
      var of := offs[|offs| - 1];
      SigrlEntry.AuxKeepsMask(p, AuxChain(p, tape, init).tape, of,
                              SigrlEntry.GadgetAOffset(of), SigrlEntry.GadgetAJOffset(of), m);
      assert AuxChain(p, tape, offs).tape == EntryAux(p, AuxChain(p, tape, init).tape, of).tape;
    }
  }

  /**
   * The MPC-input column the aux pass leaves: slot 0 the sst gadget's
   * adjustment, and for each entry the sku-mask adjustment then the
   * intermediate-mask adjustment; the sku mask is XORed into slot 0 and into
   * every entry's first slot.
   */
  function AuxColumn(sstAdj: State, mask: State, outs: seq<SigrlEntry.AuxOut>): (c: seq<State>)
    ensures |c| == 1 + 2 * |outs|
  {
    if outs == [] then [Xor(sstAdj, mask)]
    else
      var last := outs[|outs| - 1];
      AuxColumn(sstAdj, mask, outs[..|outs| - 1]) + [Xor(last.adjA, mask), last.adjI]
  }

  /** The slots of the aux column, one by one. */
  lemma {:induction false} AuxColumnAt(sstAdj: State, mask: State, outs: seq<SigrlEntry.AuxOut>, e: nat)
    requires e < |outs|
    ensures AuxColumn(sstAdj, mask, outs)[0] == Xor(sstAdj, mask)
    ensures AuxColumn(sstAdj, mask, outs)[1 + 2 * e] == Xor(outs[e].adjA, mask)
    ensures AuxColumn(sstAdj, mask, outs)[2 + 2 * e] == outs[e].adjI
    decreases |outs|
  {
    var init := outs[..|outs| - 1];
    if e < |outs| - 1 {
      AuxColumnAt(sstAdj, mask, init, e);
    } else if |outs| > 1 {
      AuxColumnAt(sstAdj, mask, init, 0);
    }
  }

  /** The first 1 + 2|outs| slots of `col` hold the aux column of `outs`, slot by slot. */
  ghost predicate SlotsHold(col: seq<State>, sstAdj: State, mask: State, outs: seq<SigrlEntry.AuxOut>)
  {
    1 + 2 * |outs| <= |col| && col[0] == Xor(sstAdj, mask) &&
    forall i :: 0 <= i < |outs| ==> col[1 + 2 * i] == Xor(outs[i].adjA, mask) && col[2 + 2 * i] == outs[i].adjI
  }

  /** Writing the next entry's two slots extends what the column holds by that entry. */
  lemma SlotsHoldStep(col: seq<State>, base: nat, sstAdj: State, mask: State, outs: seq<SigrlEntry.AuxOut>,
                      o: SigrlEntry.AuxOut, a: State)
    requires SlotsHold(col, sstAdj, mask, outs) && base == 1 + 2 * |outs| && base + 2 <= |col| && a == Xor(o.adjA, mask)
    ensures SlotsHold(col[base := a][base + 1 := o.adjI], sstAdj, mask, outs + [o])
  {
    var col' := col[base := a][base + 1 := o.adjI];
    var outs' := outs + [o];
    forall i | 0 <= i < |outs'|
      ensures col'[1 + 2 * i] == Xor(outs'[i].adjA, mask) && col'[2 + 2 * i] == outs'[i].adjI
    {
      if i < |outs| {
        assert outs'[i] == outs[i];
      }
    }
  }

  /** A column of exactly the right length that holds every slot is the aux column. */
  lemma SlotsHoldColumn(col: seq<State>, sstAdj: State, mask: State, outs: seq<SigrlEntry.AuxOut>)
    requires SlotsHold(col, sstAdj, mask, outs) && |col| == 1 + 2 * |outs|
    ensures col == AuxColumn(sstAdj, mask, outs)
  {
    var c := AuxColumn(sstAdj, mask, outs);
    forall j | 0 <= j < |col|
      ensures col[j] == c[j]
    {
      if j == 0 {
        if outs == [] {
        } else {
          AuxColumnAt(sstAdj, mask, outs, 0);
        }
      } else {
        AuxColumnAt(sstAdj, mask, outs, (j - 1) / 2);
      }
    }
  }

  /** What the signer's aux pass of one repetition leaves: the tapes and the MPC-input column. */
  datatype AuxSignOut = AuxSignOut(tape: RandomTape, column: seq<State>)

  /**
   * The signer's aux pass: the sst gadget (no plaintext or output mask), the
   * sku mask read after it, then every entry.
   */
  function AuxSign(p: Primitives, tape: RandomTape, sstOff: TapeOffset, skuOff: TapeOffset, offs: seq<TapeOffset>): (r: AuxSignOut)
    ensures |r.column| == 1 + 2 * |offs|
  {
    var sst := p.gadgetAux(tape, sstOff, Zero(), Zero());
    var chain := AuxChain(p, sst.tape, offs);
    AuxSignOut(chain.tape, AuxColumn(sst.adjustment, SkuMask(p, sst.tape, skuOff), chain.outs))
  }

  /** The verifier's aux pass: the same gadgets on the same tapes, with no outputs. */
  function AuxVerifyTape(p: Primitives, tape: RandomTape, sstOff: TapeOffset, offs: seq<TapeOffset>): RandomTape
  {
    AuxChain(p, p.gadgetAux(tape, sstOff, Zero(), Zero()).tape, offs).tape
  }

  /** Signer and verifier leave the tapes with the same aux bits. */
  lemma AuxPassesAgree(p: Primitives, tape: RandomTape, sstOff: TapeOffset, skuOff: TapeOffset, offs: seq<TapeOffset>)
    ensures AuxVerifyTape(p, tape, sstOff, offs) == AuxSign(p, tape, sstOff, skuOff, offs).tape
  {
  }

  /** The MPC-input slots that take the secret key: the sst slot 0 and each entry's first slot `1 + 2e`. */
  predicate KeySlot(k: nat)
  {
    k == 0 || k % 2 == 1
  }

  /** Entry `e`'s first slot takes the key, its second does not. */
  lemma KeySlots(e: nat)
    ensures KeySlot(1 + 2 * e) && !KeySlot(2 + 2 * e)
  {
  }

  /** The simulation pass XORs the masked key into every key slot. */
  function RemaskColumn(col: seq<State>, maskedSku: State): (c: seq<State>)
    ensures |c| == |col|
  {
    seq(|col|, k requires 0 <= k < |col| => if KeySlot(k) then Xor(col[k], maskedSku) else col[k])
  }

  /** The column with the masked key XORed into the key slots below `j` only. */
  function RemaskUpTo(col: seq<State>, maskedSku: State, j: nat): (c: seq<State>)
    ensures |c| == |col|
  {
    seq(|col|, k requires 0 <= k < |col| => if k < j && KeySlot(k) then Xor(col[k], maskedSku) else col[k])
  }

  /** Re-masking key slot `j` extends the re-masked part by one slot. */
  lemma RemaskUpToStep(col: seq<State>, maskedSku: State, j: nat)
    requires j < |col| && KeySlot(j)
    ensures RemaskUpTo(col, maskedSku, j)[j := Xor(col[j], maskedSku)] == RemaskUpTo(col, maskedSku, j + 1)
  {
  }

  /** A slot that takes no key is never re-masked, so passing it changes nothing. */
  lemma RemaskUpToSkip(col: seq<State>, maskedSku: State, j: nat)
    requires !KeySlot(j)
    ensures RemaskUpTo(col, maskedSku, j) == RemaskUpTo(col, maskedSku, j + 1)
  {
  }

  /** Once an entry's pair of slots is passed, both hold their re-masked values. */
  lemma RemaskUpToPair(col: seq<State>, maskedSku: State, base: nat)
    requires base + 1 < |col| && base % 2 == 1
    ensures RemaskUpTo(col, maskedSku, base + 2)[base] == RemaskColumn(col, maskedSku)[base]
    ensures RemaskUpTo(col, maskedSku, base + 2)[base + 1] == RemaskColumn(col, maskedSku)[base + 1]
  {
  }

  /** Once every slot is passed, the running re-mask is the re-masked column. */
  lemma RemaskUpToAll(col: seq<State>, maskedSku: State, j: nat)
    requires |col| <= j
    ensures RemaskUpTo(col, maskedSku, j) == RemaskColumn(col, maskedSku)
  {
  }

  /** The MPC inputs the signer simulates on: `col` re-masked with the key XOR the sku mask read from `tape`. */
  function SignInputs(p: Primitives, tape: RandomTape, skuOff: TapeOffset, sku: State, col: seq<State>): (c: seq<State>)
    ensures |c| == |col|
  {
    RemaskColumn(col, Xor(sku, SkuMask(p, tape, skuOff)))
  }

  /**
   * The MPC-input column the signer simulates on: the aux column re-masked
   * with the secret key XOR the sku mask read from the tapes the aux pass left.
   */
  function SignColumn(p: Primitives, tape: RandomTape, sstOff: TapeOffset, skuOff: TapeOffset,
                      offs: seq<TapeOffset>, sku: State): (c: seq<State>)
    ensures |c| == 1 + 2 * |offs|
  {
    var aux := AuxSign(p, tape, sstOff, skuOff, offs);
    RemaskColumn(aux.column, Xor(sku, SkuMask(p, aux.tape, skuOff)))
  }

  /** Re-masking the aux column with `sku XOR m` removes the mask `m` the aux pass put in. */
  lemma RemaskCancels(sstAdj: State, m: State, outs: seq<SigrlEntry.AuxOut>, sku: State, e: nat)
    requires e < |outs|
    ensures RemaskColumn(AuxColumn(sstAdj, m, outs), Xor(sku, m))[0] == Xor(sstAdj, sku)
    ensures RemaskColumn(AuxColumn(sstAdj, m, outs), Xor(sku, m))[1 + 2 * e] == Xor(outs[e].adjA, sku)
    ensures RemaskColumn(AuxColumn(sstAdj, m, outs), Xor(sku, m))[2 + 2 * e] == outs[e].adjI
  {
    KeySlots(e);
    assert KeySlot(0);
    AuxColumnAt(sstAdj, m, outs, e);
    MaskCancels(sstAdj, m, sku);
    MaskCancels(outs[e].adjA, m, sku);
  }

  /** The sku mask read after the entries' aux passes is the one read before them. */
  lemma SkuMaskSurvives(p: Primitives, tape: RandomTape, skuOff: TapeOffset, offs: seq<TapeOffset>)
    requires MaskFootprint(p)
    requires forall i :: 0 <= i < |offs| ==>
               skuOff + StateBits <= SigrlEntry.GadgetAOffset(offs[i]) && skuOff + StateBits <= SigrlEntry.GadgetAJOffset(offs[i])
    ensures SkuMask(p, AuxChain(p, tape, offs).tape, skuOff) == SkuMask(p, tape, skuOff)
  {
    if skuOff != NullOffset {
      AuxChainKeepsMask(p, tape, offs, skuOff);
    }
  }

  /**
   * The sku mask cancels: after the aux pass and the simulation pass, slot 0
   * and every entry's first slot hold the aux adjustment XOR the secret key,
   * whatever the sku mask is, provided the gadgets' aux passes do not disturb
   * the sku mask's region.
   */
  lemma SkuMaskCancels(p: Primitives, tape: RandomTape, sstOff: TapeOffset, skuOff: TapeOffset,
                       offs: seq<TapeOffset>, sku: State, e: nat)
    requires MaskFootprint(p)
    requires forall i :: 0 <= i < |offs| ==>
               skuOff + StateBits <= SigrlEntry.GadgetAOffset(offs[i]) && skuOff + StateBits <= SigrlEntry.GadgetAJOffset(offs[i])
    requires e < |offs|
    ensures SignColumn(p, tape, sstOff, skuOff, offs, sku)[0] == Xor(p.gadgetAux(tape, sstOff, Zero(), Zero()).adjustment, sku)
    ensures SignColumn(p, tape, sstOff, skuOff, offs, sku)[1 + 2 * e] ==
              Xor(AuxChain(p, p.gadgetAux(tape, sstOff, Zero(), Zero()).tape, offs).outs[e].adjA, sku)
  {
    var sst := p.gadgetAux(tape, sstOff, Zero(), Zero());
    SkuMaskSurvives(p, sst.tape, skuOff, offs);
    RemaskCancels(sst.adjustment, SkuMask(p, sst.tape, skuOff), AuxChain(p, sst.tape, offs).outs, sku, e);
  }

  /** The entries' simulations, one after the other, each extending the messages. */
  datatype Run = Run(sims: seq<SigrlEntry.EntrySim>, msgs: Msgs)

  /**
   * The simulations of the first `k` entries: entry `e` on MPC inputs `1 + 2e`
   * (the re-masked key) and `2 + 2e` (the intermediate-mask adjustment).
   */
  function RunEntries(p: Primitives, tape: RandomTape, offs: seq<TapeOffset>, srl: seq<EpidSigrlEntry>,
                      inputs: seq<State>, rValue: State, msgs: Msgs, k: nat): (r: Run)
    requires k <= |offs| && k <= |srl| && 2 * k < |inputs|
    ensures |r.sims| == k
  {
    if k == 0 then Run([], msgs)
    else
      var prev := RunEntries(p, tape, offs, srl, inputs, rValue, msgs, k - 1);
      var of := offs[k - 1];
      var s := SigrlEntry.SimSpec(p, tape, SigrlEntry.GadgetAOffset(of), SigrlEntry.GadgetAJOffset(of),
                                  inputs[2 * k - 1], srl[k - 1].first, inputs[2 * k], rValue, prev.msgs);
      Run(prev.sims + [s], s.msgs)
  }

  /** Running one more entry appends its simulation, on its two MPC inputs and the messages so far. */
  lemma RunEntriesNext(p: Primitives, tape: RandomTape, offs: seq<TapeOffset>, srl: seq<EpidSigrlEntry>,
                       inputs: seq<State>, rValue: State, msgs: Msgs, e: nat, s: SigrlEntry.EntrySim)
    requires e < |offs| && e < |srl| && 2 * e + 2 < |inputs|
    requires s == SigrlEntry.SimSpec(p, tape, SigrlEntry.GadgetAOffset(offs[e]), SigrlEntry.GadgetAJOffset(offs[e]),
                                     inputs[1 + 2 * e], srl[e].first, inputs[2 + 2 * e], rValue,
                                     RunEntries(p, tape, offs, srl, inputs, rValue, msgs, e).msgs)
    ensures RunEntries(p, tape, offs, srl, inputs, rValue, msgs, e + 1) ==
              Run(RunEntries(p, tape, offs, srl, inputs, rValue, msgs, e).sims + [s], s.msgs)
  {
  }

  /** What the signer's simulation pass of one repetition produces. */
  datatype SignOut = SignOut(sst: SimResult, run: Run)

  /** The signer's simulation pass on the re-masked MPC-input column. */
  function SimSign(p: Primitives, tape: RandomTape, sstOff: TapeOffset, sid: State, srl: seq<EpidSigrlEntry>,
                   offs: seq<TapeOffset>, rValue: State, inputs: seq<State>, msgs: Msgs): (r: SignOut)
    requires |offs| == |srl| && |inputs| == 1 + 2 * |srl|
    ensures |r.run.sims| == |srl|
  {
    var sst := p.gadgetSim(tape, sstOff, inputs[0], sid, msgs);
    SignOut(sst, RunEntries(p, tape, offs, srl, inputs, rValue, sst.msgs, |srl|))
  }

  /**
   * The output column the signer's simulation pass leaves: the sst output in
   * slot 0, and each entry's output in slot `1 + e` when the entry wrote it.
   */
  function SignOutputs(old_: seq<State>, o: SignOut): (c: seq<State>)
    requires |old_| == 1 + |o.run.sims|
    ensures |c| == |old_| && c[0] == o.sst.output
    ensures forall e :: 0 <= e < |o.run.sims| ==>
              c[1 + e] == if o.run.sims[e].output.Some? then o.run.sims[e].output.value else old_[1 + e]
  {
    seq(|old_|, k requires 0 <= k < |old_| =>
      if k == 0 then o.sst.output
      else if o.run.sims[k - 1].output.Some? then o.run.sims[k - 1].output.value
      else old_[k])
  }

  /** The status the signer's simulation pass returns: the last simulation's. */
  function SignStatus(o: SignOut): bool
  {
    if o.run.sims == [] then o.sst.ok else o.run.sims[|o.run.sims| - 1].ok
  }

  /**
   * The output column holds the sst output in slot 0, the outputs of the
   * simulations `sims` written so far in the next slots, and the old values
   * everywhere else.
   */
  ghost predicate OutputsHold(outCol: seq<State>, old_: seq<State>, sstOut: State, sims: seq<SigrlEntry.EntrySim>)
  {
    |outCol| == |old_| && 1 + |sims| <= |outCol| && outCol[0] == sstOut &&
    (forall e :: 0 <= e < |sims| ==>
       outCol[1 + e] == if sims[e].output.Some? then sims[e].output.value else old_[1 + e]) &&
    (forall k :: 1 + |sims| <= k < |outCol| ==> outCol[k] == old_[k])
  }

  /** The output column after a simulation: its output in slot `k` when it writes one, unchanged otherwise. */
  function WithOutput(outCol: seq<State>, s: SigrlEntry.EntrySim, k: nat): (c: seq<State>)
    requires k < |outCol|
    ensures |c| == |outCol|
  {
    if s.output.Some? then outCol[k := s.output.value] else outCol
  }

  /** Writing the next simulation's output, when it has one, extends what the column holds by it. */
  lemma OutputsHoldStep(outCol: seq<State>, old_: seq<State>, sstOut: State, sims: seq<SigrlEntry.EntrySim>,
                        s: SigrlEntry.EntrySim, k: nat)
    requires OutputsHold(outCol, old_, sstOut, sims) && k == 1 + |sims| && k < |outCol|
    ensures OutputsHold(WithOutput(outCol, s, k), old_, sstOut, sims + [s])
  {
    var sims' := sims + [s];
    var out' := WithOutput(outCol, s, k);
    forall e | 0 <= e < |sims'|
      ensures out'[1 + e] == if sims'[e].output.Some? then sims'[e].output.value else old_[1 + e]
    {
      if e < |sims| {
        assert sims'[e] == sims[e];
      }
    }
  }

  /** An output column that holds every simulation's output is the one the pass specifies. */
  lemma OutputsHoldDone(outCol: seq<State>, old_: seq<State>, o: SignOut)
    requires OutputsHold(outCol, old_, o.sst.output, o.run.sims) && |outCol| == 1 + |o.run.sims|
    ensures outCol == SignOutputs(old_, o)
  {
    var c := SignOutputs(old_, o);
    forall k | 0 <= k < |outCol|
      ensures outCol[k] == c[k]
    {
      if k > 0 {
        assert outCol[1 + (k - 1)] == c[1 + (k - 1)];
      }
    }
  }

  /** Every simulation succeeded and output the check value of its entry. */
  predicate AllReproduce(sims: seq<SigrlEntry.EntrySim>, aj: seq<State>)
    requires |sims| <= |aj|
  {
    forall e :: 0 <= e < |sims| ==> sims[e].ok && sims[e].output == Some(aj[e])
  }

  /** The verifier's verdict and the messages it leaves. */
  datatype Verdict = Verdict(ok: bool, msgs: Msgs)

  /**
   * The verifier's check of the first `k` entries: stop at the first entry
   * whose simulation fails or whose output differs from its check value.
   */
  function VerifyEntries(p: Primitives, tape: RandomTape, offs: seq<TapeOffset>, srl: seq<EpidSigrlEntry>,
                         inputs: seq<State>, rValue: State, aj: seq<State>, msgs: Msgs, k: nat): Verdict
    requires k <= |offs| && k <= |srl| && 2 * k < |inputs| && k <= |aj|
  {
    if k == 0 then Verdict(true, msgs)
    else
      var prev := VerifyEntries(p, tape, offs, srl, inputs, rValue, aj, msgs, k - 1);
      if !prev.ok then prev
      else
        var of := offs[k - 1];
        var s := SigrlEntry.SimSpec(p, tape, SigrlEntry.GadgetAOffset(of), SigrlEntry.GadgetAJOffset(of),
                                    inputs[2 * k - 1], srl[k - 1].first, inputs[2 * k], rValue, prev.msgs);
        Verdict(s.ok && s.output == Some(aj[k - 1]), s.msgs)
  }

  /** Once an entry is rejected, checking further entries keeps that verdict. */
  lemma {:induction false} VerifyEntriesStops(p: Primitives, tape: RandomTape, offs: seq<TapeOffset>, srl: seq<EpidSigrlEntry>,
                                              inputs: seq<State>, rValue: State, aj: seq<State>, msgs: Msgs, k: nat, n: nat)
    requires k <= n && n <= |offs| && n <= |srl| && 2 * n < |inputs| && n <= |aj|
    requires !VerifyEntries(p, tape, offs, srl, inputs, rValue, aj, msgs, k).ok
    ensures VerifyEntries(p, tape, offs, srl, inputs, rValue, aj, msgs, n) ==
              VerifyEntries(p, tape, offs, srl, inputs, rValue, aj, msgs, k)
    decreases n - k
  {
    if k < n {
      VerifyEntriesStops(p, tape, offs, srl, inputs, rValue, aj, msgs, k, n - 1);
    }
  }

  /**
   * The verifier's check of one repetition: the sst simulation must succeed
   * (its output is not compared), then every entry.
   */
  function Verify(p: Primitives, tape: RandomTape, sstOff: TapeOffset, sid: State, srl: seq<EpidSigrlEntry>,
                  offs: seq<TapeOffset>, rValue: State, inputs: seq<State>, aj: seq<State>, msgs: Msgs): Verdict
    requires |offs| == |srl| && |inputs| == 1 + 2 * |srl| && |srl| <= |aj|
  {
    var sst := p.gadgetSim(tape, sstOff, inputs[0], sid, msgs);
    if !sst.ok then Verdict(false, sst.msgs)
    else VerifyEntries(p, tape, offs, srl, inputs, rValue, aj, sst.msgs, |srl|)
  }

  /**
   * The entries pass exactly when every simulation succeeds and reproduces its
   * check value; when they pass, the messages are those of running every entry.
   */
  lemma {:induction false} VerifyEntriesAccept(p: Primitives, tape: RandomTape, offs: seq<TapeOffset>, srl: seq<EpidSigrlEntry>,
                                               inputs: seq<State>, rValue: State, aj: seq<State>, msgs: Msgs, k: nat)
    requires k <= |offs| && k <= |srl| && 2 * k < |inputs| && k <= |aj|
    ensures VerifyEntries(p, tape, offs, srl, inputs, rValue, aj, msgs, k).ok <==>
              AllReproduce(RunEntries(p, tape, offs, srl, inputs, rValue, msgs, k).sims, aj)
    ensures VerifyEntries(p, tape, offs, srl, inputs, rValue, aj, msgs, k).ok ==>
              VerifyEntries(p, tape, offs, srl, inputs, rValue, aj, msgs, k).msgs == RunEntries(p, tape, offs, srl, inputs, rValue, msgs, k).msgs
  {
    if k > 0 {
      VerifyEntriesAccept(p, tape, offs, srl, inputs, rValue, aj, msgs, k - 1);
      var prevRun := RunEntries(p, tape, offs, srl, inputs, rValue, msgs, k - 1);
      var last := RunEntries(p, tape, offs, srl, inputs, rValue, msgs, k).sims[k - 1];
      assert RunEntries(p, tape, offs, srl, inputs, rValue, msgs, k) == Run(prevRun.sims + [last], last.msgs);
      AllReproduceSnoc(prevRun.sims, last, aj);
    }
  }

  /** Extending the simulations by one keeps them reproducing exactly when the new one reproduces its check value. */
  lemma AllReproduceSnoc(sims: seq<SigrlEntry.EntrySim>, s: SigrlEntry.EntrySim, aj: seq<State>)
    requires |sims| < |aj|
    ensures AllReproduce(sims + [s], aj) <==> AllReproduce(sims, aj) && s.ok && s.output == Some(aj[|sims|])
  {
    var sims' := sims + [s];
    if AllReproduce(sims', aj) {
      forall e | 0 <= e < |sims|
        ensures sims[e].ok && sims[e].output == Some(aj[e])
      {
        assert sims'[e] == sims[e];
      }
      assert sims'[|sims|] == s;
    }
  }

  /** The verifier's step over entry `e` once the entries before it passed. */
  lemma VerifyEntriesNext(p: Primitives, tape: RandomTape, offs: seq<TapeOffset>, srl: seq<EpidSigrlEntry>,
                          inputs: seq<State>, rValue: State, aj: seq<State>, msgs: Msgs, e: nat, base: nat,
                          s: SigrlEntry.EntrySim)
    requires e < |offs| && e < |srl| && base == 1 + 2 * e && base + 1 < |inputs| && e < |aj|
    requires VerifyEntries(p, tape, offs, srl, inputs, rValue, aj, msgs, e).ok
    requires s == SigrlEntry.SimSpec(p, tape, SigrlEntry.GadgetAOffset(offs[e]), SigrlEntry.GadgetAJOffset(offs[e]),
                                     inputs[base], srl[e].first, inputs[base + 1], rValue,
                                     VerifyEntries(p, tape, offs, srl, inputs, rValue, aj, msgs, e).msgs)
    ensures VerifyEntries(p, tape, offs, srl, inputs, rValue, aj, msgs, e + 1) == Verdict(s.ok && s.output == Some(aj[e]), s.msgs)
  {
  }

  /**
   * The accept rule of one repetition: the sst simulation succeeds, and every
   * entry's simulation succeeds and outputs that entry's check value. The
   * simulated sst is compared with nothing.
   */
  lemma VerifyAcceptRule(p: Primitives, tape: RandomTape, sstOff: TapeOffset, sid: State, srl: seq<EpidSigrlEntry>,
                         offs: seq<TapeOffset>, rValue: State, inputs: seq<State>, aj: seq<State>, msgs: Msgs)
    requires |offs| == |srl| && |inputs| == 1 + 2 * |srl| && |srl| <= |aj|
    ensures Verify(p, tape, sstOff, sid, srl, offs, rValue, inputs, aj, msgs).ok <==>
              SimSign(p, tape, sstOff, sid, srl, offs, rValue, inputs, msgs).sst.ok &&
              AllReproduce(SimSign(p, tape, sstOff, sid, srl, offs, rValue, inputs, msgs).run.sims, aj)
  {
    var sst := p.gadgetSim(tape, sstOff, inputs[0], sid, msgs);
    VerifyEntriesAccept(p, tape, offs, srl, inputs, rValue, aj, sst.msgs, |srl|);
  }

  /**
   * Replacing any entry's check value by a different one makes an accepted
   * repetition rejected.
   */
  lemma VerifyRejectsAlteredCheckValue(p: Primitives, tape: RandomTape, sstOff: TapeOffset, sid: State, srl: seq<EpidSigrlEntry>,
                                       offs: seq<TapeOffset>, rValue: State, inputs: seq<State>, aj: seq<State>,
                                       aj2: seq<State>, msgs: Msgs, e: nat)
    requires |offs| == |srl| && |inputs| == 1 + 2 * |srl| && |srl| <= |aj| && |srl| <= |aj2|
    requires Verify(p, tape, sstOff, sid, srl, offs, rValue, inputs, aj, msgs).ok
    requires e < |srl| && aj2[e] != aj[e]
    ensures !Verify(p, tape, sstOff, sid, srl, offs, rValue, inputs, aj2, msgs).ok
  {
    VerifyAcceptRule(p, tape, sstOff, sid, srl, offs, rValue, inputs, aj, msgs);
    VerifyAcceptRule(p, tape, sstOff, sid, srl, offs, rValue, inputs, aj2, msgs);
  }

  /**
   * An honest repetition is accepted: when the verifier sees the signer's
   * MPC inputs on the signer's tapes, and every simulation of the signer
   * succeeded with the entries' outputs as check values, it accepts; and it
   * ends with the signer's messages, so both commit to the same transcript.
   */
  lemma HonestRepetitionAccepted(p: Primitives, tape: RandomTape, sstOff: TapeOffset, sid: State, srl: seq<EpidSigrlEntry>,
                                 offs: seq<TapeOffset>, rValue: State, inputs: seq<State>, aj: seq<State>, msgs: Msgs)
    requires |offs| == |srl| && |inputs| == 1 + 2 * |srl| && |srl| <= |aj|
    requires SimSign(p, tape, sstOff, sid, srl, offs, rValue, inputs, msgs).sst.ok
    requires AllReproduce(SimSign(p, tape, sstOff, sid, srl, offs, rValue, inputs, msgs).run.sims, aj)
    ensures Verify(p, tape, sstOff, sid, srl, offs, rValue, inputs, aj, msgs).ok
    ensures Verify(p, tape, sstOff, sid, srl, offs, rValue, inputs, aj, msgs).msgs ==
              SimSign(p, tape, sstOff, sid, srl, offs, rValue, inputs, msgs).run.msgs
  {
    var sst := p.gadgetSim(tape, sstOff, inputs[0], sid, msgs);
    VerifyEntriesAccept(p, tape, offs, srl, inputs, rValue, aj, sst.msgs, |srl|);
  }

  /**
   * The gadgets whose aux bits a proof carries, in the order the aux-bit
   * cursor visits them: the sst gadget, then gadget a and gadget a_j of each
   * entry in list order.
   */
  function ListGadgets(sstOff: TapeOffset, offs: seq<TapeOffset>): (g: seq<TapeOffset>)
    ensures |g| == 1 + 2 * |offs|
  {
    if offs == [] then [sstOff]
    else
      var of := offs[|offs| - 1];
      ListGadgets(sstOff, offs[..|offs| - 1]) + [SigrlEntry.GadgetAOffset(of), SigrlEntry.GadgetAJOffset(of)]
  }

  /** One more entry adds its gadget a and gadget a_j to the gadgets visited. */
  lemma ListGadgetsStep(sstOff: TapeOffset, offs: seq<TapeOffset>, e: nat)
    requires e < |offs|
    ensures ListGadgets(sstOff, offs[..e + 1]) ==
              ListGadgets(sstOff, offs[..e]) + [SigrlEntry.GadgetAOffset(offs[e]), SigrlEntry.GadgetAJOffset(offs[e])]
  {
    assert offs[..e + 1][..e] == offs[..e];
  }

  /** The gadgets visited, one by one. */
  lemma {:induction false} ListGadgetsAt(sstOff: TapeOffset, offs: seq<TapeOffset>, k: nat)
    requires k < 1 + 2 * |offs|
    ensures ListGadgets(sstOff, offs)[k] ==
              if k == 0 then sstOff
              else if k % 2 == 1 then SigrlEntry.GadgetAOffset(offs[(k - 1) / 2])
              else SigrlEntry.GadgetAJOffset(offs[(k - 2) / 2])
    decreases |offs|
  {
    if offs != [] && k < 2 * |offs| - 1 {
      ListGadgetsAt(sstOff, offs[..|offs| - 1], k);
    }
  }

  /** For a list placed at `of`, the gadgets visited are those of the tape layout. */
  lemma ListGadgetsPlaced(of: TapeOffset, n: nat, k: nat)
    requires k < 1 + 2 * n
    ensures ListGadgets(SstOffset(of), EntryOffsets(of, n))[k] == GadgetOffset(of, k)
  {
    ListGadgetsAt(SstOffset(of), EntryOffsets(of, n), k);
  }

  /** The aux bits of the gadgets `gs`, concatenated in order. */
  function AuxBitsOf(p: Primitives, tape: RandomTape, gs: seq<TapeOffset>): (bits: seq<bool>)
    requires AuxLaws(p)
    ensures |bits| == |gs| * AndsBits
  {
    if gs == [] then []
    else AuxBitsOf(p, tape, gs[..|gs| - 1]) + p.auxGet(tape, gs[|gs| - 1])
  }

  /** Stores consecutive `AndsBits`-bit blocks of `bits` as the aux bits of the gadgets `gs`, in order. */
  function StoreAux(p: Primitives, tape: RandomTape, gs: seq<TapeOffset>, bits: seq<bool>): RandomTape
    requires |gs| * AndsBits <= |bits|
  {
    if gs == [] then tape
    else
      var k := |gs| - 1;
      p.auxSet(StoreAux(p, tape, gs[..k], bits), gs[k], bits[k * AndsBits..(k + 1) * AndsBits])
  }

  /** Two more gadgets append their aux bits to the concatenation. */
  lemma AuxBitsOfStep(p: Primitives, tape: RandomTape, gs: seq<TapeOffset>, a: TapeOffset, b: TapeOffset)
    requires AuxLaws(p)
    ensures AuxBitsOf(p, tape, gs + [a, b]) == AuxBitsOf(p, tape, gs) + p.auxGet(tape, a) + p.auxGet(tape, b)
  {
    assert (gs + [a, b])[..|gs| + 1] == gs + [a];
    assert (gs + [a])[..|gs|] == gs;
  }

  /** Two more gadgets store the two blocks of bits after the `pos` bits already stored, in order. */
  lemma StoreAuxStep(p: Primitives, tape: RandomTape, gs: seq<TapeOffset>, a: TapeOffset, b: TapeOffset,
                     bits: seq<bool>, pos: nat)
    requires pos == |gs| * AndsBits && pos + 2 * AndsBits <= |bits|
    ensures StoreAux(p, tape, gs + [a, b], bits) ==
              p.auxSet(p.auxSet(StoreAux(p, tape, gs, bits), a, bits[pos..pos + AndsBits]),
                       b, bits[pos + AndsBits..pos + 2 * AndsBits])
  {
    assert (gs + [a, b])[..|gs| + 1] == gs + [a];
    assert (gs + [a])[..|gs|] == gs;
  }

  /** No two of the gadgets `gs` overlap. */
  ghost predicate Disjoint(gs: seq<TapeOffset>)
  {
    forall i, j :: 0 <= i < j < |gs| ==> gs[i] + GadgetTapeBits <= gs[j] || gs[j] + GadgetTapeBits <= gs[i]
  }

  /** Storing aux bits for gadgets leaves the aux bits of a gadget overlapping none of them unchanged. */
  lemma {:induction false} StoreAuxElsewhere(p: Primitives, tape: RandomTape, gs: seq<TapeOffset>, bits: seq<bool>, o: TapeOffset)
    requires AuxLaws(p) && |gs| * AndsBits <= |bits|
    requires forall i :: 0 <= i < |gs| ==> gs[i] + GadgetTapeBits <= o || o + GadgetTapeBits <= gs[i]
    ensures p.auxGet(StoreAux(p, tape, gs, bits), o) == p.auxGet(tape, o)
    decreases |gs|
  {
    if gs != [] {
      var k := |gs| - 1;
      StoreAuxElsewhere(p, tape, gs[..k], bits, o);
    }
  }

  /** Tapes that agree on the aux bits of every gadget in `gs` give the same concatenation. */
  lemma {:induction false} AuxBitsOfFrame(p: Primitives, t1: RandomTape, t2: RandomTape, gs: seq<TapeOffset>)
    requires AuxLaws(p)
    requires forall i :: 0 <= i < |gs| ==> p.auxGet(t1, gs[i]) == p.auxGet(t2, gs[i])
    ensures AuxBitsOf(p, t1, gs) == AuxBitsOf(p, t2, gs)
    decreases |gs|
  {
    if gs != [] {
      AuxBitsOfFrame(p, t1, t2, gs[..|gs| - 1]);
    }
  }

  /** Storing the last gadget's block leaves the aux bits of the gadgets before it as they were. */
  lemma StoreLastKeepsInit(p: Primitives, tape: RandomTape, gs: seq<TapeOffset>, bits: seq<bool>)
    requires AuxLaws(p) && Disjoint(gs) && gs != [] && |gs| * AndsBits <= |bits|
    ensures AuxBitsOf(p, StoreAux(p, tape, gs, bits), gs[..|gs| - 1]) ==
            AuxBitsOf(p, StoreAux(p, tape, gs[..|gs| - 1], bits), gs[..|gs| - 1])
  {
    var k := |gs| - 1;
    var init := gs[..k];
    var mid := StoreAux(p, tape, init, bits);
    var full := StoreAux(p, tape, gs, bits);
    forall i | 0 <= i < k
      ensures p.auxGet(full, init[i]) == p.auxGet(mid, init[i])
    {
      assert gs[i] + GadgetTapeBits <= gs[k] || gs[k] + GadgetTapeBits <= gs[i];
    }
    AuxBitsOfFrame(p, full, mid, init);
  }

  /**
   * The aux round trip: storing a proof's aux bits for disjoint gadgets and
   * reading them back in the same order gives the bits that were stored.
   */
  lemma {:induction false} AuxRoundTrip(p: Primitives, tape: RandomTape, gs: seq<TapeOffset>, bits: seq<bool>)
    requires AuxLaws(p) && Disjoint(gs) && |gs| * AndsBits <= |bits|
    ensures AuxBitsOf(p, StoreAux(p, tape, gs, bits), gs) == bits[..|gs| * AndsBits]
    decreases |gs|
  {
    if gs != [] {
      var k := |gs| - 1;
      AuxRoundTrip(p, tape, gs[..k], bits);
      StoreLastKeepsInit(p, tape, gs, bits);
      var block := bits[k * AndsBits..(k + 1) * AndsBits];
      assert p.auxGet(StoreAux(p, tape, gs, bits), gs[k]) == block;
      assert bits[..(k + 1) * AndsBits] == bits[..k * AndsBits] + block;
    }
  }

  /** The gadgets of a list that fits on the tapes do not overlap. */
  lemma PlacedGadgetsDisjoint(of: TapeOffset, n: nat)
    requires Fits(of, n)
    ensures Disjoint(ListGadgets(SstOffset(of), EntryOffsets(of, n)))
  {
    var gs := ListGadgets(SstOffset(of), EntryOffsets(of, n));
    forall i, j | 0 <= i < j < |gs|
      ensures gs[i] + GadgetTapeBits <= gs[j] || gs[j] + GadgetTapeBits <= gs[i]
    {
      ListGadgetsPlaced(of, n, i);
      ListGadgetsPlaced(of, n, j);
      GadgetsDisjoint(of, n, i, j);
    }
  }

  /**
   * The aux round trip for a placed list: a verifier that stores a proof's aux
   * bits on the tapes of a list placed at `of` and a signer that reads the aux
   * bits of the same list see the same bits.
   */
  lemma PlacedAuxRoundTrip(p: Primitives, tape: RandomTape, of: TapeOffset, n: nat, bits: seq<bool>)
    requires AuxLaws(p) && Fits(of, n) && |bits| == (1 + 2 * n) * AndsBits
    ensures AuxBitsOf(p, StoreAux(p, tape, ListGadgets(SstOffset(of), EntryOffsets(of, n)), bits),
                      ListGadgets(SstOffset(of), EntryOffsets(of, n))) == bits
  {
    PlacedGadgetsDisjoint(of, n);
    AuxRoundTrip(p, tape, ListGadgets(SstOffset(of), EntryOffsets(of, n)), bits);
    assert bits[..|bits|] == bits;
  }
}
