/** LowMC states as byte strings and their bitwise exclusive or. */
module LowmcState {
  import opened Params

  /** A LowMC block: exactly `StateBytes` bytes. */
  type State = s: seq<bv8> | |s| == StateBytes witness seq(17, _ => 0 as bv8)

  /** The all-zero state (a null mask). */
  function Zero(): (z: State)
    ensures forall i :: 0 <= i < StateBytes ==> z[i] == 0
  {
    seq(StateBytes, _ => 0 as bv8)
  }

  /** Bytewise exclusive or of two equally long byte strings. */
  function XorBytes(a: seq<bv8>, b: seq<bv8>): (r: seq<bv8>)
    requires |a| == |b|
    ensures |r| == |a|
    decreases |a|
  {
    if a == [] then []
    else XorBytes(a[..|a| - 1], b[..|b| - 1]) + [a[|a| - 1] ^ b[|b| - 1]]
  }

  /** Byte `i` of the exclusive or is the exclusive or of the bytes `i`. */
  lemma {:induction false} XorBytesAt(a: seq<bv8>, b: seq<bv8>, i: nat)
    requires |a| == |b| && i < |a|
    ensures XorBytes(a, b)[i] == a[i] ^ b[i]
    decreases |a|
  {
    if i < |a| - 1 {
      XorBytesAt(a[..|a| - 1], b[..|b| - 1], i);
    }
  }

  /** Bytewise exclusive or of two states. */
  function Xor(a: State, b: State): State
  {
    XorBytes(a, b)
  }

  /** Byte `i` of `Xor(a, b)` is `a[i] ^ b[i]`. */
  lemma XorAt(a: State, b: State)
    ensures forall i :: 0 <= i < StateBytes ==> Xor(a, b)[i] == a[i] ^ b[i]
  {
    forall i | 0 <= i < StateBytes
      ensures Xor(a, b)[i] == a[i] ^ b[i]
    {
      XorBytesAt(a, b, i);
    }
  }

  lemma XorZero(a: State)
    ensures Xor(a, Zero()) == a
  {
    XorAt(a, Zero());
  }

  lemma XorSelf(a: State)
    ensures Xor(a, a) == Zero()
  {
    XorAt(a, a);
  }

  lemma XorComm(a: State, b: State)
    ensures Xor(a, b) == Xor(b, a)
  {
    XorAt(a, b);
    XorAt(b, a);
  }

  lemma XorAssoc(a: State, b: State, c: State)
    ensures Xor(Xor(a, b), c) == Xor(a, Xor(b, c))
  {
    XorAt(a, b);
    XorAt(Xor(a, b), c);
    XorAt(b, c);
    XorAt(a, Xor(b, c));
  }

  /**
   * A mask applied twice vanishes: (x ^ m) ^ (s ^ m) == x ^ s. This is what lets
   * the signer re-mask a value with a mask it later XORs in again.
   */
  lemma MaskCancels(x: State, m: State, s: State)
    ensures Xor(Xor(x, m), Xor(s, m)) == Xor(x, s)
  {
    XorAt(x, m);
    XorAt(s, m);
    XorAt(Xor(x, m), Xor(s, m));
    XorAt(x, s);
    assert forall i :: 0 <= i < StateBytes ==> (x[i] ^ m[i]) ^ (s[i] ^ m[i]) == x[i] ^ s[i];
  }
}
