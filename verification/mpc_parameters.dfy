/**
 * The fixed parameter set of the proof system and the small records built from
 * it: the LowMC block size, the number of AND-gate bits of one LowMC
 * evaluation, the repetition and party counts, the tape-offset type, and the
 * `Mpc_param` sizing record with its arithmetic.
 *
 * The parameter header itself is not part of this model; the values below are
 * the Picnic3-L1 LowMC instance (129-bit block, 43 S-boxes, 4 rounds).
 */
module Params {
  /** LowMC block and key size in bits, and the bytes that hold it. */
  const StateBits: nat := 129
  const StateBytes: nat := 17
  /** A state held in 64-bit words: 3 words, 24 bytes. */
  const StateWords64Bytes: nat := 24
  /** Bits of AND-gate randomness one LowMC evaluation consumes: 3 per S-box, 43 S-boxes, 4 rounds. */
  const AndsBits: nat := 516
  const MpcRounds: nat := 250
  const MpcParties: nat := 16
  const DigestBytes: nat := 32
  const SaltBytes: nat := 32
  const NonceBytes: nat := 32
  const ChallengeHashBytes: nat := 32
  /** Size of a pointer on the target platform. */
  const PointerBytes: nat := 8

  /** Number of bytes needed to hold `bits` bits. */
  function NumBytes(bits: nat): (r: nat)
    ensures 8 * r >= bits && 8 * r < bits + 8
  {
    (bits + 7) / 8
  }

  /** Tape offsets are unsigned 32-bit bit positions; all arithmetic on them wraps. */
  const Modulus32: int := 0x1_0000_0000
  type TapeOffset = x: int | 0 <= x < 0x1_0000_0000

  /** The sentinel meaning "no region assigned yet". */
  const NullOffset: TapeOffset := 0xFFFF_FFFF

  /** `a + b` in uint32 arithmetic. */
  function OffsetAdd(a: TapeOffset, b: nat): TapeOffset
  {
    (a + b) % 0x1_0000_0000
  }

  /** `a - b` in uint32 arithmetic. */
  function OffsetSub(a: TapeOffset, b: TapeOffset): TapeOffset
  {
    (a - b) % 0x1_0000_0000
  }

  /** Two wrapping additions are one wrapping addition of the sum. */
  lemma OffsetAddAdd(a: TapeOffset, b: nat, c: nat)
    ensures OffsetAdd(OffsetAdd(a, b), c) == OffsetAdd(a, b + c)
  {
  }

  /**
   * Whatever offset a region of `span` bits starts at, the unsigned difference
   * between its end and its start is `span`: the conservation law every
   * `set_offsets` asserts holds even when the end wraps past 2^32.
   */
  lemma OffsetConservation(a: TapeOffset, span: nat)
    requires span < Modulus32
    ensures OffsetSub(OffsetAdd(a, span), a) == span
  {
  }

  /**
   * The sizing record of a sub-proof: aux bits and the numbers of input,
   * MPC-input and output slots it needs.
   */
  datatype MpcParam = MpcParam(auxBits: nat, nInputs: nat, nMpcInputs: nat, nOutputs: nat)

  /** Bytes of aux bits: the working data sizes its aux buffer from this. */
  function AuxSizeBytes(p: MpcParam): (r: nat)
    ensures 8 * r >= p.auxBits && 8 * r < p.auxBits + 8
  {
    NumBytes(p.auxBits)
  }

  /** Componentwise sum of two sub-proof sizes. */
  function AddParam(a: MpcParam, b: MpcParam): MpcParam
  {
    MpcParam(a.auxBits + b.auxBits, a.nInputs + b.nInputs, a.nMpcInputs + b.nMpcInputs, a.nOutputs + b.nOutputs)
  }

  /** Componentwise multiple of a sub-proof size. */
  function ScaleParam(a: MpcParam, n: nat): MpcParam
  {
    MpcParam(n * a.auxBits, n * a.nInputs, n * a.nMpcInputs, n * a.nOutputs)
  }

  /** Sum of a sequence of sub-proof sizes, folded from the left. */
  function SumParams(ps: seq<MpcParam>): MpcParam
  {
    if ps == [] then MpcParam(0, 0, 0, 0) else AddParam(SumParams(ps[..|ps| - 1]), ps[|ps| - 1])
  }

  /** Scaling by `n` is the same as adding `n` copies: sizes compose. */
  lemma {:induction false} ScaleIsRepeatedAdd(a: MpcParam, n: nat)
    ensures ScaleParam(a, n) == SumParams(seq(n, _ => a))
  {
    if n > 0 {
      ScaleIsRepeatedAdd(a, n - 1);
      var copies := seq(n, _ => a);
      assert copies[..n - 1] == seq(n - 1, _ => a);
      assert SumParams(copies) == AddParam(ScaleParam(a, n - 1), a);
      ScaleStep(a, n);
    }
  }

  /** One more copy: `n * x == (n - 1) * x + x` for each component. */
  lemma ScaleStep(a: MpcParam, n: nat)
    requires n > 0
    ensures ScaleParam(a, n) == AddParam(ScaleParam(a, n - 1), a)
  {
    assert n * a.auxBits == (n - 1) * a.auxBits + a.auxBits;
    assert n * a.nInputs == (n - 1) * a.nInputs + a.nInputs;
    assert n * a.nMpcInputs == (n - 1) * a.nMpcInputs + a.nMpcInputs;
    assert n * a.nOutputs == (n - 1) * a.nOutputs + a.nOutputs;
  }

  /** Where one sub-proof's slots start inside the working data. */
  datatype MpcProofIndices = MpcProofIndices(inputIndex: nat, mpcInputIndex: nat, outputIndex: nat)

  /** The first free slots after a sub-proof of size `p` placed at the start. */
  function IndicesFromParam(p: MpcParam): MpcProofIndices
  {
    MpcProofIndices(p.nInputs, p.nMpcInputs, p.nOutputs)
  }

  /** Advances slot indices past a sub-proof of size `p`. */
  function IndicesAddParam(i: MpcProofIndices, p: MpcParam): MpcProofIndices
  {
    MpcProofIndices(i.inputIndex + p.nInputs, i.mpcInputIndex + p.nMpcInputs, i.outputIndex + p.nOutputs)
  }

  /** The first free slots after a sub-proof at the start are the start advanced past it. */
  lemma IndicesFromIsAdd(p: MpcParam)
    ensures IndicesFromParam(p) == IndicesAddParam(MpcProofIndices(0, 0, 0), p)
  {
  }

  /** Advancing past two sub-proofs in turn is advancing past their sum once. */
  lemma IndicesAddAdd(i: MpcProofIndices, p: MpcParam, q: MpcParam)
    ensures IndicesAddParam(IndicesAddParam(i, p), q) == IndicesAddParam(i, AddParam(p, q))
  {
  }

  /** Advancing past a sub-proof of size zero stays put. */
  lemma IndicesAddZero(i: MpcProofIndices)
    ensures IndicesAddParam(i, MpcParam(0, 0, 0, 0)) == i
  {
  }

  /** The indices reached after advancing `k` times by `p` from `start`. */
  function IndicesAfter(start: MpcProofIndices, p: MpcParam, k: nat): MpcProofIndices
  {
    if k == 0 then start else IndicesAddParam(IndicesAfter(start, p, k - 1), p)
  }

  /** Advancing `k` times by `p` is one advance by `k` copies of `p`. */
  lemma {:induction false} IndicesAfterIsScaled(start: MpcProofIndices, p: MpcParam, k: nat)
    ensures IndicesAfter(start, p, k) == IndicesAddParam(start, ScaleParam(p, k))
  {
    if k > 0 {
      IndicesAfterIsScaled(start, p, k - 1);
      ScaleStep(p, k);
    }
  }
}
