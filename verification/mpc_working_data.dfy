/**
 * The per-signature working storage of the MPC simulation
 * (`Mpc_working_data`): for every input, MPC-input and output slot a table of
 * one state per repetition, the aux bits and the broadcast messages.
 * Allocation results are parameters of the model: `calloc` may fail.
 */
module WorkingData {
  import opened Options
  import opened Params
  import opened LowmcState
  import opened Primitives

  /** Bytes of one `allocate_inputs64` slab: a pointer and a 64-bit-word state per repetition. */
  const SlabBytes: nat := MpcRounds * (StateWords64Bytes + PointerBytes)

  /** Where repetition `i`'s state starts in a slab: after the pointer table, one block per repetition. */
  function BlockOffset(i: nat): nat
  {
    MpcRounds * PointerBytes + i * StateWords64Bytes
  }

  /**
   * The blocks of distinct repetitions do not overlap, none overlaps the
   * pointer table, and every block lies inside the slab.
   */
  lemma BlocksDisjoint(i: nat, j: nat)
    requires i < j < MpcRounds
    ensures MpcRounds * PointerBytes <= BlockOffset(i)
    ensures BlockOffset(i) + StateWords64Bytes <= BlockOffset(j)
    ensures BlockOffset(j) + StateWords64Bytes <= SlabBytes
  {
  }

  /** A slab and the pointer table at its start, as byte offsets into the slab. */
  datatype InputsTable = InputsTable(slab: array<bv8>, pointers: seq<nat>)

  /**
   * `allocate_inputs64`: one zero-filled slab holding the pointer table and
   * then one state block per repetition; `None` when the allocation fails.
   */
  method AllocateInputs64(available: bool) returns (r: Option<InputsTable>)
    ensures r.Some? <==> available
    ensures r.Some? ==> fresh(r.value.slab) && r.value.slab.Length == SlabBytes
    ensures r.Some? ==> forall j :: 0 <= j < SlabBytes ==> r.value.slab[j] == 0
    ensures r.Some? ==> |r.value.pointers| == MpcRounds &&
                        forall i :: 0 <= i < MpcRounds ==> r.value.pointers[i] == BlockOffset(i)
  {
    if !available {
      return None;
    }
    var slab := new bv8[SlabBytes](_ => 0);
    var pointers: seq<nat> := [];
    var cursor := MpcRounds * PointerBytes;
    var i := 0;
    while i < MpcRounds
      invariant 0 <= i <= MpcRounds
      invariant |pointers| == i && cursor == BlockOffset(i)
      invariant forall k :: 0 <= k < i ==> pointers[k] == BlockOffset(k)
    {
      pointers := pointers + [cursor];
      cursor := cursor + StateWords64Bytes;
      i := i + 1;
    }
    r := Some(InputsTable(slab, pointers));
  }

  /** The state of every repetition in a freshly allocated slot: all zero. */
  function ZeroColumn(): (c: seq<State>)
    ensures |c| == MpcRounds
  {
    seq(MpcRounds, _ => Zero())
  }

  /** The slots `allocate_inputs64` calls number `base` to `base + n - 1` produce. */
  function Slots(n: nat, base: nat, available: nat -> bool): (s: seq<Option<seq<State>>>)
    ensures |s| == n
  {
    seq(n, i requires 0 <= i < n => if available(base + i) then Some(ZeroColumn()) else None)
  }

  /** The broadcast messages as allocated: one zero buffer of `size` bytes per party and repetition. */
  function InitialMsgs(size: nat): (m: seq<Msgs>)
    ensures |m| == MpcRounds
  {
    seq(MpcRounds, _ => Msgs(seq(MpcParties, _ => seq(size, _ => 0 as bv8)), 0))
  }

  /** Allocates `n` slots, the `i`-th with allocation number `base + i`. */
  method AllocateSlots(n: nat, base: nat, available: nat -> bool) returns (slots: seq<Option<seq<State>>>)
    ensures slots == Slots(n, base, available)
  {
    slots := [];
    var i := 0;
    while i < n
      invariant 0 <= i <= n
      invariant slots == Slots(i, base, available)
    {
      var table := AllocateInputs64(available(base + i));
      var column: Option<seq<State>> := None;
      if table.Some? {
        var bytes := table.value.slab[..];
        var pointers := table.value.pointers;
        var states: seq<State> := seq(MpcRounds, r requires 0 <= r < MpcRounds => bytes[pointers[r]..pointers[r] + StateBytes]);
        assert forall r :: 0 <= r < MpcRounds ==> states[r] == Zero() by {
          forall r | 0 <= r < MpcRounds
            ensures states[r] == Zero()
          {
            assert forall j :: 0 <= j < StateBytes ==> states[r][j] == bytes[pointers[r] + j] == 0;
          }
        }
        assert states == ZeroColumn();
        column := Some(states);
      }
      assert Slots(i + 1, base, available) == Slots(i, base, available) + [column];
      slots := slots + [column];
      i := i + 1;
    }
  }

  /** Every slot is allocated and holds one state per repetition. */
  ghost predicate ColumnsReady(slots: seq<Option<seq<State>>>)
  {
    forall k :: 0 <= k < |slots| ==> slots[k].Some? && |slots[k].value| == MpcRounds
  }

  /** The states of all slots in repetition `t`. */
  function Column(slots: seq<Option<seq<State>>>, t: nat): (c: seq<State>)
    requires ColumnsReady(slots) && t < MpcRounds
    ensures |c| == |slots|
  {
    seq(|slots|, k requires 0 <= k < |slots| => slots[k].value[t])
  }

  /** The slots with repetition `t` replaced by `col` and every other repetition kept. */
  function WithColumn(slots: seq<Option<seq<State>>>, t: nat, col: seq<State>): (s: seq<Option<seq<State>>>)
    requires ColumnsReady(slots) && t < MpcRounds && |col| == |slots|
    ensures |s| == |slots| && ColumnsReady(s)
  {
    seq(|slots|, k requires 0 <= k < |slots| => Some(slots[k].value[t := col[k]]))
  }

  /** Slot `k` holds `col[k]` in repetition `t` and keeps every other repetition. */
  lemma WithColumnAt(slots: seq<Option<seq<State>>>, t: nat, col: seq<State>, k: nat)
    requires ColumnsReady(slots) && t < MpcRounds && |col| == |slots| && k < |slots|
    ensures WithColumn(slots, t, col)[k].value[t] == col[k]
    ensures forall r :: 0 <= r < MpcRounds && r != t ==> WithColumn(slots, t, col)[k].value[r] == slots[k].value[r]
  {
  }

  /** Slot `k` of repetition `t` set to `v`. */
  function SetSlot(slots: seq<Option<seq<State>>>, k: nat, t: nat, v: State): seq<Option<seq<State>>>
    requires ColumnsReady(slots) && t < MpcRounds && k < |slots|
  {
    slots[k := Some(slots[k].value[t := v])]
  }

  /** Writing one slot of a repetition is updating that repetition's column. */
  lemma SetSlotWithColumn(slots: seq<Option<seq<State>>>, t: nat, col: seq<State>, k: nat, v: State)
    requires ColumnsReady(slots) && t < MpcRounds && |col| == |slots| && k < |slots|
    ensures SetSlot(WithColumn(slots, t, col), k, t, v) == WithColumn(slots, t, col[k := v])
  {
    var lhs := SetSlot(WithColumn(slots, t, col), k, t, v);
    var rhs := WithColumn(slots, t, col[k := v]);
    forall i | 0 <= i < |slots|
      ensures lhs[i] == rhs[i]
    {
      assert lhs[i].value == rhs[i].value;
    }
  }

  /** Replacing a repetition by its own column changes nothing. */
  lemma WithOwnColumn(slots: seq<Option<seq<State>>>, t: nat)
    requires ColumnsReady(slots) && t < MpcRounds
    ensures WithColumn(slots, t, Column(slots, t)) == slots
  {
    var w := WithColumn(slots, t, Column(slots, t));
    forall i | 0 <= i < |slots|
      ensures w[i] == slots[i]
    {
      assert w[i].value == slots[i].value;
    }
  }

  class MpcWorkingData {
    var isInitialised: bool
    var auxSizeBytes: nat
    var auxBits: Option<seq<bv8>>
    var msgs: Option<seq<Msgs>>
    var inputs: seq<Option<seq<State>>>
    var mpcInputs: seq<Option<seq<State>>>
    var outputs: seq<Option<seq<State>>>

    /**
     * Sizes everything from `param`. When the aux buffer cannot be allocated
     * the object stays uninitialised with nothing else allocated; otherwise it
     * is initialised even if a slot or the messages could not be allocated.
     * `available(k)` is whether the `k`-th slot allocation succeeds, counting
     * input, then MPC-input, then output slots.
     */
    constructor (param: MpcParam, auxAvailable: bool, msgsAvailable: bool, available: nat -> bool)
      ensures auxSizeBytes == AuxSizeBytes(param)
      ensures !auxAvailable ==> !isInitialised && auxBits == None && msgs == None &&
                                inputs == [] && mpcInputs == [] && outputs == []
      ensures auxAvailable ==> isInitialised && auxBits == Some(seq(auxSizeBytes, _ => 0 as bv8)) &&
                               msgs == (if msgsAvailable then Some(InitialMsgs(auxSizeBytes)) else None) &&
                               inputs == Slots(param.nInputs, 0, available) &&
                               mpcInputs == Slots(param.nMpcInputs, param.nInputs, available) &&
                               outputs == Slots(param.nOutputs, param.nInputs + param.nMpcInputs, available)
    {
      isInitialised := false;
      auxSizeBytes := AuxSizeBytes(param);
      auxBits := None;
      msgs := None;
      inputs := [];
      mpcInputs := [];
      outputs := [];
      new;
      if auxAvailable {
        auxBits := Some(seq(auxSizeBytes, _ => 0 as bv8));
        msgs := if msgsAvailable then Some(InitialMsgs(auxSizeBytes)) else None;
        inputs := AllocateSlots(param.nInputs, 0, available);
        mpcInputs := AllocateSlots(param.nMpcInputs, param.nInputs, available);
        outputs := AllocateSlots(param.nOutputs, param.nInputs + param.nMpcInputs, available);
        isInitialised := true;
      }
    }

    /** The destructor: releases the storage and marks the object uninitialised. */
    method Destroy()
      modifies this
      ensures !isInitialised
      ensures auxSizeBytes == old(auxSizeBytes) && auxBits == old(auxBits) && msgs == old(msgs)
      ensures inputs == old(inputs) && mpcInputs == old(mpcInputs) && outputs == old(outputs)
    {
      isInitialised := false;
    }
  }
}
