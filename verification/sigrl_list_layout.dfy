/**
 * How the signature-based revocation list test lays out its tape regions and
 * its working-data slots: the sku mask, then the sst gadget, then one block per
 * list entry; slot 0 for the sst gadget and two MPC-input slots and one output
 * slot per entry.
 */
module SigrlLayout {
  import opened Params
  import Gadget
  import SigrlEntry

  /** Sizes of the sst sub-proof and of one list entry's sub-proof. */
  const SstParam: MpcParam := MpcParam(Gadget.AuxBits, 1, 1, 1)
  const SingleEntryParam: MpcParam := MpcParam(SigrlEntry.AuxBits, 0, 2, 1)

  /** The slots of the first list entry: right after the sst sub-proof's. */
  const Pi: MpcProofIndices := IndicesFromParam(SstParam)

  /** Size of the whole proof for a list of `n` entries. */
  function ListParam(n: nat): MpcParam
  {
    AddParam(ScaleParam(SingleEntryParam, n), SstParam)
  }

  /**
   * A list of `n` entries needs one input slot, `2n + 1` MPC-input slots,
   * `n + 1` output slots, and the aux bits of `2n + 1` gadgets.
   */
  lemma ListParamShape(n: nat)
    ensures ListParam(n) == MpcParam((2 * n + 1) * Gadget.AuxBits, 1, 2 * n + 1, n + 1)
  {
  }

  /**
   * Entry `e`'s slots: MPC inputs `1 + 2e` (re-masked sku) and `2 + 2e`
   * (intermediate-mask adjustment), output `1 + e`. All of them lie inside a
   * proof for a list of more than `e` entries, and none is the sst's slot 0.
   */
  lemma {:induction false} EntrySlots(e: nat)
    ensures IndicesAfter(Pi, SingleEntryParam, e) == MpcProofIndices(1, 1 + 2 * e, 1 + e)
  {
    if e > 0 {
      EntrySlots(e - 1);
    }
  }

  /** Entry `e`'s slots lie inside the proof of a list with more than `e` entries. */
  lemma EntrySlotsInBounds(n: nat, e: nat)
    requires e < n
    ensures 2 + 2 * e < ListParam(n).nMpcInputs && 1 + e < ListParam(n).nOutputs
  {
  }

  /** Where the sst gadget starts when the list is placed at `of`: after the sku mask. */
  function SstOffset(of: TapeOffset): TapeOffset
  {
    OffsetAdd(of, StateBits)
  }

  /** Where the first entry starts: after the sst gadget. */
  function EntriesBase(of: TapeOffset): TapeOffset
  {
    OffsetAdd(SstOffset(of), Gadget.Span)
  }

  /** Where entry `e` starts; the product is a uint32 product, as is the sum. */
  function EntryOffset(of: TapeOffset, e: nat): TapeOffset
  {
    OffsetAdd(EntriesBase(of), (e * SigrlEntry.Span) % 0x1_0000_0000)
  }

  /** All entries' start offsets. */
  function EntryOffsets(of: TapeOffset, n: nat): (r: seq<TapeOffset>)
    ensures |r| == n && forall e :: 0 <= e < n ==> r[e] == EntryOffset(of, e)
  {
    seq(n, e requires 0 <= e < n => EntryOffset(of, e))
  }

  /** The first offset after a list of `n` entries placed at `of`. */
  function ListEnd(of: TapeOffset, n: nat): TapeOffset
  {
    OffsetAdd(EntriesBase(of), (n * SigrlEntry.Span) % 0x1_0000_0000)
  }

  /** Tape bits a list of `n` entries occupies. */
  function ListTapeBits(n: nat): nat
  {
    StateBits + Gadget.Span + n * SigrlEntry.Span
  }

  /**
   * The tape a list occupies is one state mask per entry plus the sku mask,
   * and two tape bits per aux bit of the proof: the offset layout and the
   * proof size agree.
   */
  lemma TapeBitsMatchParam(n: nat)
    ensures ListTapeBits(n) == (n + 1) * StateBits + 2 * ListParam(n).auxBits
  {
  }

  /** The sizes in bits of the regions, as numbers. */
  lemma Spans()
    ensures StateBits == 129 && Gadget.TapeBits == 1032 && Gadget.Span == 1032
    ensures SigrlEntry.Span == 2193 && Gadget.AuxBits == 516 && SigrlEntry.AuxBits == 1032
  {
  }

  /** A list of `n` entries placed at `of` ends at an offset below 2^32. */
  predicate Fits(of: TapeOffset, n: nat)
  {
    of + ListTapeBits(n) < Modulus32
  }

  /**
   * When the list fits, nothing wraps: the sku mask, the sst gadget and the
   * entries follow each other without gaps and the whole list ends at
   * `of + ListTapeBits(n)`.
   */
  lemma Layout(of: TapeOffset, n: nat)
    requires Fits(of, n)
    ensures SstOffset(of) == of + StateBits
    ensures EntriesBase(of) == SstOffset(of) + Gadget.TapeBits
    ensures forall e :: 0 <= e < n ==> EntryOffset(of, e) == EntriesBase(of) + e * SigrlEntry.Span
    ensures ListEnd(of, n) == of + ListTapeBits(n)
    ensures ListEnd(of, n) - of == StateBits + Gadget.TapeBits + n * SigrlEntry.Span
  {
    Spans();
    assert 0 <= n * SigrlEntry.Span == n * 2193;
    assert of + StateBits + Gadget.TapeBits + n * SigrlEntry.Span < Modulus32;
    forall e | 0 <= e < n
      ensures EntryOffset(of, e) == EntriesBase(of) + e * SigrlEntry.Span
    {
      assert e * 2193 < n * 2193;
    }
  }

  /**
   * The start of the `k`-th gadget in the order the aux bits visit them: the
   * sst gadget, then gadget a and gadget a_j of each entry in list order.
   */
  function GadgetOffset(of: TapeOffset, k: nat): TapeOffset
  {
    if k == 0 then SstOffset(of)
    else if k % 2 == 1 then SigrlEntry.GadgetAOffset(EntryOffset(of, (k - 1) / 2))
    else SigrlEntry.GadgetAJOffset(EntryOffset(of, (k - 2) / 2))
  }

  /** Where the two gadgets of entry `e` start, as numbers, when the list fits. */
  lemma EntryGadgetsAt(of: TapeOffset, n: nat, e: nat)
    requires Fits(of, n) && e < n
    ensures GadgetOffset(of, 2 * e + 1) == of + 1290 + e * 2193
    ensures GadgetOffset(of, 2 * e + 2) == of + 2322 + e * 2193
  {
    Layout(of, n);
    Spans();
    assert e * 2193 < n * 2193;
    var eo := EntryOffset(of, e);
    assert eo == of + 1161 + e * 2193;
    SigrlEntry.Layout(eo);
    assert (2 * e + 1) % 2 == 1 && (2 * e + 1 - 1) / 2 == e;
    assert (2 * e + 2) % 2 == 0 && (2 * e + 2 - 2) / 2 == e;
  }

  /** Each gadget starts after the sku mask and at least a gadget's width after the one before it. */
  lemma GadgetStep(of: TapeOffset, n: nat, k: nat)
    requires Fits(of, n) && k < 2 * n
    ensures of + StateBits <= GadgetOffset(of, k)
    ensures GadgetOffset(of, k) + Gadget.TapeBits <= GadgetOffset(of, k + 1)
    ensures GadgetOffset(of, k + 1) + Gadget.TapeBits <= of + ListTapeBits(n)
  {
    Layout(of, n);
    Spans();
    assert n * 2193 == n * SigrlEntry.Span;
    if k == 0 {
      EntryGadgetsAt(of, n, 0);
    } else if k % 2 == 1 {
      var e := (k - 1) / 2;
      assert k == 2 * e + 1 && k + 1 == 2 * e + 2;
      EntryGadgetsAt(of, n, e);
      assert e * 2193 <= (n - 1) * 2193;
    } else {
      var e := (k - 2) / 2;
      assert k == 2 * e + 2 && k + 1 == 2 * (e + 1) + 1;
      EntryGadgetsAt(of, n, e);
      EntryGadgetsAt(of, n, e + 1);
      assert (e + 1) * 2193 == e * 2193 + 2193;
      assert (e + 1) * 2193 <= (n - 1) * 2193;
    }
  }

  /**
   * Distinct gadgets of a list that fits own disjoint tape regions, all above
   * the sku mask's region.
   */
  lemma {:induction false} GadgetsDisjoint(of: TapeOffset, n: nat, i: nat, j: nat)
    requires Fits(of, n) && i < j <= 2 * n
    ensures of + StateBits <= GadgetOffset(of, i)
    ensures GadgetOffset(of, i) + Gadget.TapeBits <= GadgetOffset(of, j)
    decreases j - i
  {
    GadgetStep(of, n, i);
    if i + 1 < j {
      GadgetsDisjoint(of, n, i + 1, j);
    }
  }

  /**
   * The entry-offset slots the list's offset assignment writes as written, in
   * order: slot 0 before the loop, whatever the list's size, then slots 1 to `n - 1`.
   */
  function StoredSlotsAsWritten(n: nat): seq<nat>
  {
    [0] + seq(if n >= 1 then n - 1 else 0, i => i + 1)
  }

  /** The slots the corrected assignment writes, in order: slots 0 to `n - 1`. */
  function StoredSlots(n: nat): seq<nat>
  {
    seq(n, i => i)
  }

  /** Every slot written lies inside an offset vector sized for `n` entries. */
  predicate InVector(slots: seq<nat>, n: nat)
  {
    forall k :: 0 <= k < |slots| ==> slots[k] < n
  }

  /** On an empty list the assignment as written stores outside the (empty) vector. */
  lemma EmptyListStoreOutOfBounds()
    ensures !InVector(StoredSlotsAsWritten(0), 0)
  {
    assert StoredSlotsAsWritten(0)[0] == 0;
  }

  /**
   * The assignment as written stays inside the vector exactly when the list
   * is not empty, and then it writes the same slots as the corrected one.
   */
  lemma StoredSlotsAsWrittenInBounds(n: nat)
    ensures InVector(StoredSlotsAsWritten(n), n) <==> n >= 1
    ensures n >= 1 ==> StoredSlotsAsWritten(n) == StoredSlots(n)
  {
    if n == 0 {
      EmptyListStoreOutOfBounds();
    } else {
      var w := StoredSlotsAsWritten(n);
      forall k | 0 <= k < n
        ensures w[k] == k
      {
        if k > 0 {
          assert w[k] == seq(n - 1, i => i + 1)[k - 1];
        }
      }
    }
  }

  /** The corrected assignment writes every slot of the vector once, in order, and no other. */
  lemma StoredSlotsInBounds(n: nat)
    ensures |StoredSlots(n)| == n && InVector(StoredSlots(n), n)
    ensures forall k :: 0 <= k < n ==> StoredSlots(n)[k] == k
  {
  }
}
