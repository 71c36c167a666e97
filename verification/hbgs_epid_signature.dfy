/**
 * The revocation signature record Σ = (str, sid, r, sst, A_1..A_J, π_E): the
 * reference of the list it was made against, the nonce `str`, the session
 * identifier, the blinding value r, the revocation-checking data (the masked
 * key `sst` and the list of A_j values) and the proof bytes π_E.
 */
module EpidSignature {
  import opened Params
  import opened LowmcState

  class RevocationSignature {
    /** The list the signature was made against; "unset" until a constructor names one. */
    var srlReference: string
    var str: seq<bv8>
    var sid: State
    var rValue: State
    /** The revocation-checking data: the masked key and one A_j per list entry. */
    var sst: State
    var aj: seq<State>
    /** π_E, the serialised proof. */
    var signature: seq<bv8>

    predicate Valid()
      reads this
    {
      |str| == NonceBytes
    }

    /** The default record: reference "unset", every byte field zero, no A_j and no proof bytes. */
    constructor Default()
      ensures Valid()
      ensures srlReference == "unset"
      ensures str == seq(NonceBytes, _ => 0) && sid == Zero() && rValue == Zero() && sst == Zero()
      ensures aj == [] && SigLen() == 0
    {
      srlReference := "unset";
      str := seq(NonceBytes, _ => 0);
      sid := Zero();
      rValue := Zero();
      sst := Zero();
      aj := [];
      signature := [];
    }

    /**
     * A record for a signing run: keeps the list reference, copies the nonce,
     * the session identifier, the masked key and r, and starts with no A_j
     * values and an empty proof buffer.
     */
    constructor (srlFile: string, strIn: seq<bv8>, sidIn: State, sstIn: State, rIn: State)
      requires |strIn| == NonceBytes
      ensures Valid()
      ensures srlReference == srlFile
      ensures Str() == strIn && Sid() == sidIn && Sst() == sstIn && Rv() == rIn
      ensures aj == [] && SigLen() == 0
    {
      srlReference := srlFile;
      str := strIn;
      sid := sidIn;
      sst := sstIn;
      rValue := rIn;
      aj := [];
      signature := [];
    }

    function Str(): seq<bv8>
      reads this
    {
      str
    }

    function Sid(): State
      reads this
    {
      sid
    }

    function Sst(): State
      reads this
    {
      sst
    }

    function Rv(): State
      reads this
    {
      rValue
    }

    /** The number of proof bytes held. */
    function SigLen(): nat
      reads this
    {
      |signature|
    }
  }
}
