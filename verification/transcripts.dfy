/**
 * The byte strings the proof feeds to its hash: the view commitment of one
 * repetition, the challenge hash, the salt-and-root-seed derivation and the
 * session identifier. Each is a concatenation of fixed-length fields, so the
 * fields can be read back from the string; the hash itself is abstract.
 */
module Transcripts {
  import opened Params
  import opened LowmcState
  import opened Primitives

  /** Every party's message buffer holds at least the bytes written so far. */
  predicate MsgsReady(m: Msgs)
  {
    |m.msgs| == MpcParties && forall i :: 0 <= i < MpcParties ==> NumBytes(m.pos) <= |m.msgs[i]|
  }

  /** The chunks `cs` laid end to end, in order. */
  function Flatten(cs: seq<seq<bv8>>): seq<bv8>
  {
    if cs == [] then [] else Flatten(cs[..|cs| - 1]) + cs[|cs| - 1]
  }

  /** Chunks of width `w` flatten to `|cs| * w` bytes. */
  lemma {:induction false} FlattenLength(cs: seq<seq<bv8>>, w: nat)
    requires forall i :: 0 <= i < |cs| ==> |cs[i]| == w
    ensures |Flatten(cs)| == |cs| * w
  {
    if cs != [] {
      FlattenLength(cs[..|cs| - 1], w);
      assert (|cs| - 1) * w + w == |cs| * w;
    }
  }

  /** Chunk `i` of width `w` sits at `i * w` in the flattened chunks. */
  lemma {:induction false} FlattenAt(cs: seq<seq<bv8>>, w: nat, i: nat)
    requires (forall j :: 0 <= j < |cs| ==> |cs[j]| == w) && i < |cs|
    ensures |Flatten(cs)| == |cs| * w && (i + 1) * w <= |cs| * w
    ensures Flatten(cs)[i * w..(i + 1) * w] == cs[i]
  {
    var init := cs[..|cs| - 1];
    FlattenLength(cs, w);
    FlattenLength(init, w);
    assert Flatten(cs) == Flatten(init) + cs[|cs| - 1];
    assert (|cs| - 1) * w + w == |cs| * w;
    if i < |cs| - 1 {
      FlattenAt(init, w, i);
      assert init[i] == cs[i];
    } else {
      assert i * w == |Flatten(init)|;
    }
  }

  /** The written part of every party's message buffer, in party order. */
  function PartyBlocks(m: Msgs): (r: seq<seq<bv8>>)
    requires MsgsReady(m)
    ensures |r| == MpcParties && forall i :: 0 <= i < MpcParties ==> r[i] == m.msgs[i][..NumBytes(m.pos)]
  {
    seq(MpcParties, i requires 0 <= i < MpcParties => m.msgs[i][..NumBytes(m.pos)])
  }

  /**
   * What the view commitment of a repetition hashes: the first MPC input (the
   * re-masked sst key), then the written messages of every party in party order.
   */
  function CommitVTranscript(input0: State, m: Msgs): (r: seq<bv8>)
    requires MsgsReady(m)
  {
    input0 + Flatten(PartyBlocks(m))
  }

  /**
   * The commitment's string determines what was committed to: the first MPC
   * input and, for messages written to the same position, every party's
   * written messages.
   */
  lemma CommitVTranscriptInjective(a: State, m: Msgs, b: State, n: Msgs)
    requires MsgsReady(m) && MsgsReady(n) && m.pos == n.pos
    requires CommitVTranscript(a, m) == CommitVTranscript(b, n)
    ensures a == b
    ensures forall i :: 0 <= i < MpcParties ==> m.msgs[i][..NumBytes(m.pos)] == n.msgs[i][..NumBytes(n.pos)]
  {
    var x := CommitVTranscript(a, m);
    assert x[..StateBytes] == a;
    assert CommitVTranscript(b, n)[..StateBytes] == b;
    assert x[StateBytes..] == Flatten(PartyBlocks(m));
    assert CommitVTranscript(b, n)[StateBytes..] == Flatten(PartyBlocks(n));
    forall i | 0 <= i < MpcParties
      ensures m.msgs[i][..NumBytes(m.pos)] == n.msgs[i][..NumBytes(n.pos)]
    {
      FlattenAt(PartyBlocks(m), NumBytes(m.pos), i);
      FlattenAt(PartyBlocks(n), NumBytes(n.pos), i);
    }
  }

  /** The fields of the challenge hash, all of fixed length. */
  predicate HcpFieldsReady(chHashes: seq<seq<bv8>>, cvRoot: seq<bv8>, salt: seq<bv8>, digest: seq<bv8>, nonce: seq<bv8>)
  {
    |chHashes| == MpcRounds && (forall t :: 0 <= t < MpcRounds ==> |chHashes[t]| == DigestBytes) &&
    |cvRoot| == DigestBytes && |salt| == SaltBytes && |digest| == DigestBytes && |nonce| == NonceBytes
  }

  /**
   * What the challenge hash hashes: every repetition's commitment in order,
   * the root of the view-commitment tree, the salt, the message digest and
   * the nonce.
   */
  function HcpTranscript(chHashes: seq<seq<bv8>>, cvRoot: seq<bv8>, salt: seq<bv8>, digest: seq<bv8>, nonce: seq<bv8>)
    : (r: seq<bv8>)
    requires HcpFieldsReady(chHashes, cvRoot, salt, digest, nonce)
  {
    Flatten(chHashes) + cvRoot + salt + digest + nonce
  }

  /** The challenge's string determines every field it was built from. */
  lemma HcpTranscriptInjective(ch: seq<seq<bv8>>, cv: seq<bv8>, salt: seq<bv8>, md: seq<bv8>, nonce: seq<bv8>,
                               ch2: seq<seq<bv8>>, cv2: seq<bv8>, salt2: seq<bv8>, md2: seq<bv8>, nonce2: seq<bv8>)
    requires HcpFieldsReady(ch, cv, salt, md, nonce) && HcpFieldsReady(ch2, cv2, salt2, md2, nonce2)
    requires HcpTranscript(ch, cv, salt, md, nonce) == HcpTranscript(ch2, cv2, salt2, md2, nonce2)
    ensures ch == ch2 && cv == cv2 && salt == salt2 && md == md2 && nonce == nonce2
  {
    var x := HcpTranscript(ch, cv, salt, md, nonce);
    var y := HcpTranscript(ch2, cv2, salt2, md2, nonce2);
    FlattenLength(ch, DigestBytes);
    FlattenLength(ch2, DigestBytes);
    var c := MpcRounds * DigestBytes;
    assert x[..c] == Flatten(ch) && y[..c] == Flatten(ch2);
    assert x[c..c + DigestBytes] == cv && y[c..c + DigestBytes] == cv2;
    assert x[c + DigestBytes..c + DigestBytes + SaltBytes] == salt;
    assert y[c + DigestBytes..c + DigestBytes + SaltBytes] == salt2;
    assert x[c + DigestBytes + SaltBytes..c + 2 * DigestBytes + SaltBytes] == md;
    assert y[c + DigestBytes + SaltBytes..c + 2 * DigestBytes + SaltBytes] == md2;
    assert x[c + 2 * DigestBytes + SaltBytes..] == nonce && y[c + 2 * DigestBytes + SaltBytes..] == nonce2;
    forall t | 0 <= t < MpcRounds
      ensures ch[t] == ch2[t]
    {
      FlattenAt(ch, DigestBytes, t);
      FlattenAt(ch2, DigestBytes, t);
    }
  }

  /** A 16-bit unsigned integer as two bytes, least significant first. */
  function Le16(x: bv16): (r: seq<bv8>)
    ensures |r| == 2
  {
    [(x & 0xFF) as bv8, (x >> 8) as bv8]
  }

  /** Two bytes read back as a little-endian 16-bit integer. */
  function FromLe16(b: seq<bv8>): bv16
    requires |b| == 2
  {
    (b[1] as bv16 << 8) | b[0] as bv16
  }

  /** Reading back the two bytes of a 16-bit integer gives the integer. */
  lemma Le16RoundTrip(x: bv16)
    ensures FromLe16(Le16(x)) == x
  {
  }

  /**
   * What the salt and root seed are squeezed from: the session identifier,
   * the nonce, and the LowMC block size in bits as a 16-bit little-endian integer.
   */
  function SaltTranscript(sid: State, nonce: seq<bv8>): (r: seq<bv8>)
    requires |nonce| == NonceBytes
  {
    sid + nonce + Le16(StateBits as bv16)
  }

  /** The salt transcript's layout: the sid, the nonce, then the block size 129 as the bytes 0x81 0x00. */
  lemma SaltTranscriptLayout(sid: State, nonce: seq<bv8>)
    requires |nonce| == NonceBytes
    ensures |SaltTranscript(sid, nonce)| == StateBytes + NonceBytes + 2
    ensures SaltTranscript(sid, nonce)[..StateBytes] == sid
    ensures SaltTranscript(sid, nonce)[StateBytes..StateBytes + NonceBytes] == nonce
    ensures SaltTranscript(sid, nonce)[StateBytes + NonceBytes..] == [0x81, 0x00]
    ensures FromLe16(SaltTranscript(sid, nonce)[StateBytes + NonceBytes..]) as nat == StateBits
  {
    var x := SaltTranscript(sid, nonce);
    assert x == (sid + nonce) + Le16(StateBits as bv16);
    assert x[StateBytes + NonceBytes..] == Le16(StateBits as bv16);
    Le16RoundTrip(StateBits as bv16);
  }

  /** What the session identifier is squeezed from: the signature's nonce `str`, then the message digest. */
  function SidTranscript(str: seq<bv8>, digest: seq<bv8>): (r: seq<bv8>)
    requires |str| == NonceBytes && |digest| == DigestBytes
    ensures |r| == NonceBytes + DigestBytes
  {
    str + digest
  }

  /**
   * Clears the bits of a state's last byte past the block size: 129 bits fill
   * 16 bytes and the most significant bit of the 17th, which is the first bit
   * of that byte in the order the tapes and states use.
   */
  function ZeroTrailingBits(s: State): (r: State)
  {
    s[StateBytes - 1 := s[StateBytes - 1] & 0x80]
  }

  /**
   * After clearing, the state keeps its first 129 bits and the padding bits
   * are zero; clearing twice is clearing once.
   */
  lemma ZeroTrailingBitsSpec(s: State)
    ensures ZeroTrailingBits(s)[..StateBytes - 1] == s[..StateBytes - 1]
    ensures ZeroTrailingBits(s)[StateBytes - 1] & 0x80 == s[StateBytes - 1] & 0x80
    ensures ZeroTrailingBits(s)[StateBytes - 1] & 0x7F == 0
    ensures ZeroTrailingBits(ZeroTrailingBits(s)) == ZeroTrailingBits(s)
  {
    var b := s[StateBytes - 1];
    assert (b & 0x80) & 0x80 == b & 0x80;
    assert (b & 0x80) & 0x7F == 0;
  }
}
