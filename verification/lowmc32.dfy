/**
 * The text form of a LowMC state (its bytes as hexadecimal digits) and the
 * two LowMC-based compression functions.
 */
module Lowmc32 {
  import opened Options
  import opened Params
  import opened LowmcState
  import opened Primitives
  import opened IoUtils

  /** Models `print_lowmc_state_bytes`: the state's bytes through `print_buffer`. */
  function PrintLowmcStateBytes(st: State): (r: string)
    ensures r == HexString(st) && |r| == 2 * StateBytes
  {
    PrintBuffer(st)
  }

  /** What reading a state gives: success, the state written, and the stream afterwards. */
  datatype StateRead = StateRead(ok: bool, state: State, rest: Stream)

  /** The end of `read_lowmc_state_bytes`: a pending digit or a short state is a failure and leaves the state zero. */
  function Finish(s: Stream, bytes: seq<bv8>, half: Option<char>): (r: StateRead)
  {
    if half.Some? || |bytes| != StateBytes then StateRead(false, Zero(), s) else StateRead(true, bytes, s)
  }

  /**
   * The character loop of `read_lowmc_state_bytes` from stream `s`, with the
   * bytes decoded so far and the lower-cased first digit of a pair when one
   * is pending. Each round first takes a character, then stops when the state
   * is already full (so one character past the state is consumed), at end of
   * input or at whitespace. A pair with a non-hexadecimal character fails at
   * once. A successful `get` never sets end-of-file, so the source's
   * end-of-file test inside the loop never fires.
   */
  function ReadLoop(s: Stream, bytes: seq<bv8>, half: Option<char>): (r: StateRead)
    requires |bytes| <= StateBytes
    ensures r.rest.text == s.text
    ensures !r.ok ==> r.state == Zero()
    decreases |s.text| - s.pos
  {
    var g := Get(s);
    if g.0.None? || |bytes| == StateBytes || IsSpace(g.0.value) then Finish(g.1, bytes, half)
    else
      var c := ToLower(g.0.value);
      if half.None? then ReadLoop(g.1, bytes, Some(c))
      else if !(IsHexDigit(half.value) && IsHexDigit(c)) then StateRead(false, Zero(), g.1)
      else ReadLoop(g.1, bytes + [PairValue(half.value, c)], None)
  }

  /** The whole of `read_lowmc_state_bytes`: skip whitespace, then the character loop from an empty state. */
  function ReadLowmcStateBytesSpec(s: Stream): StateRead
  {
    ReadLoop(SkipWs(s), [], None)
  }

  /**
   * Models `read_lowmc_state_bytes`: the state is zeroed, leading whitespace
   * skipped, then characters are taken one at a time, lower-cased and decoded
   * in pairs into consecutive bytes. Any failure zeroes the state again.
   */
  method ReadLowmcStateBytes(s: Stream) returns (ok: bool, state: State, rest: Stream)
    ensures StateRead(ok, state, rest) == ReadLowmcStateBytesSpec(s)
  {
    var buf: seq<bv8> := Zero();
    var index: nat := 0;
    var pending: nat := 0;
    var high: char := '\0';
    rest := SkipWs(s);
    while true
      invariant index <= StateBytes && |buf| == StateBytes && pending <= 1
      invariant forall k :: index <= k < StateBytes ==> buf[k] == 0
      invariant ReadLoop(rest, buf[..index], if pending == 1 then Some(high) else None) == ReadLowmcStateBytesSpec(s)
      decreases |rest.text| - rest.pos
    {
      var g := Get(rest);
      rest := g.1;
      if g.0.None? || index >= StateBytes {
        break;
      }
      var c := g.0.value;
      if IsSpace(c) {
        break;
      }
      if pending == 0 {
        high := ToLower(c);
        pending := 1;
      } else {
        var low := ToLower(c);
        if !(IsHexDigit(high) && IsHexDigit(low)) {
          return false, Zero(), rest;
        }
        buf := buf[index := PairValue(high, low)];
        assert buf[..index + 1] == buf[..index] + [PairValue(high, low)];
        index := index + 1;
        pending := 0;
      }
    }
    if pending != 0 || index != StateBytes {
      return false, Zero(), rest;
    }
    assert buf[..index] == buf;
    return true, buf, rest;
  }

  /** One round of the loop on a character that is not whitespace, while the state is not yet full. */
  lemma ReadLoopDigit(s: Stream, bytes: seq<bv8>, half: Option<char>)
    requires s.good && s.pos < |s.text| && |bytes| < StateBytes && !IsSpace(s.text[s.pos])
    ensures var c := ToLower(s.text[s.pos]); var s1 := s.(pos := s.pos + 1);
      ReadLoop(s, bytes, half) ==
        if half.None? then ReadLoop(s1, bytes, Some(c))
        else if !(IsHexDigit(half.value) && IsHexDigit(c)) then StateRead(false, Zero(), s1)
        else ReadLoop(s1, bytes + [PairValue(half.value, c)], None)
  {
  }

  /** With the state full and no digit pending, the loop takes one more character (if any) and succeeds. */
  lemma ReadLoopFull(s: Stream, bytes: seq<bv8>)
    requires |bytes| == StateBytes
    ensures ReadLoop(s, bytes, None) == StateRead(true, bytes, Get(s).1)
  {
  }

  /** Where a successful read leaves the stream: one character past the 34 digits, or failed at end of input. */
  function AfterState(t: string, q: nat): Stream
  {
    if q + 2 * StateBytes < |t| then Stream(t, q + 2 * StateBytes + 1, true) else Stream(t, q + 2 * StateBytes, false)
  }

  /** Lower-casing a character keeps whether it is a hexadecimal digit and which value it has. */
  lemma NibbleOfLower(c: char)
    requires IsHexDigit(ToLower(c))
    ensures IsHexDigit(c) && Nibble(ToLower(c)) == Nibble(c)
  {
  }

  /** The loop stops at end of input, at whitespace, or when the state is already full. */
  lemma ReadLoopStop(s: Stream, bytes: seq<bv8>, half: Option<char>)
    requires |bytes| <= StateBytes
    requires !(s.good && s.pos < |s.text| && |bytes| < StateBytes && !IsSpace(s.text[s.pos]))
    ensures ReadLoop(s, bytes, half) == Finish(Get(s).1, bytes, half)
  {
  }

  /** Two characters whose lower-cased forms are hexadecimal digits stand for the byte those forms stand for. */
  lemma PairOfLower(t: string, p: nat, h: char, c: char)
    requires p + 1 < |t| && h == ToLower(t[p]) && c == ToLower(t[p + 1]) && IsHexDigit(h) && IsHexDigit(c)
    ensures PairAt(t, p, PairValue(h, c))
  {
    NibbleOfLower(t[p]);
    NibbleOfLower(t[p + 1]);
  }

  /** Appending the byte of the next pair keeps the decoded bytes in step with the text. */
  lemma PairsExtend(t: string, q: nat, bytes: seq<bv8>, b: bv8)
    requires forall k :: 0 <= k < |bytes| ==> PairAt(t, q + 2 * k, bytes[k])
    requires PairAt(t, q + 2 * |bytes|, b)
    ensures forall k :: 0 <= k < |bytes| + 1 ==> PairAt(t, q + 2 * k, (bytes + [b])[k])
  {
  }

  /**
   * Soundness of the character loop: when it succeeds, the 34 characters
   * from `q` (where the digits began) are hexadecimal digit pairs whose
   * values are the state's bytes, and one more character was consumed if
   * there was one.
   */
  lemma {:induction false} ReadLoopSound(s: Stream, bytes: seq<bv8>, half: Option<char>, q: nat)
    requires s.good && |bytes| <= StateBytes && s.pos <= |s.text|
    requires s.pos == q + 2 * |bytes| + (if half.Some? then 1 else 0)
    requires forall k :: 0 <= k < |bytes| ==> PairAt(s.text, q + 2 * k, bytes[k])
    requires half.Some? ==> half.value == ToLower(s.text[s.pos - 1])
    ensures var r := ReadLoop(s, bytes, half);
      r.ok ==> (q + 2 * StateBytes <= |s.text| && r.rest == AfterState(s.text, q) &&
                forall k :: 0 <= k < StateBytes ==> PairAt(s.text, q + 2 * k, r.state[k]))
    decreases |s.text| - s.pos
  {
    if s.pos < |s.text| && |bytes| < StateBytes && !IsSpace(s.text[s.pos]) {
      ReadLoopDigit(s, bytes, half);
      var c := ToLower(s.text[s.pos]);
      var s1 := s.(pos := s.pos + 1);
      if half.None? {
        ReadLoopSound(s1, bytes, Some(c), q);
      } else if IsHexDigit(half.value) && IsHexDigit(c) {
        var b := PairValue(half.value, c);
        PairOfLower(s.text, s.pos - 1, half.value, c);
        PairsExtend(s.text, q, bytes, b);
        ReadLoopSound(s1, bytes + [b], None, q);
      }
    } else {
      ReadLoopStop(s, bytes, half);
    }
  }

  /**
   * A successful read found, after the skipped whitespace, 34 hexadecimal
   * digits (of either case) whose pairs are the state's bytes, high nibble
   * first, and consumed one character more when there was one. So a
   * non-hexadecimal character among them, whitespace or end of input before
   * all 17 bytes, or an odd digit each make the read fail; and a failed read
   * leaves the state all zero.
   */
  lemma ReadLowmcStateBytesSound(s: Stream)
    requires s.good && s.pos <= |s.text|
    ensures var q := SkipWs(s).pos; var r := ReadLowmcStateBytesSpec(s);
      (r.ok ==> (q + 2 * StateBytes <= |s.text| && r.rest == AfterState(s.text, q) &&
                 forall k :: 0 <= k < StateBytes ==> PairAt(s.text, q + 2 * k, r.state[k]))) &&
      (!r.ok ==> r.state == Zero())
  {
    ReadLoopSoundFromStart(SkipWs(s));
  }

  /** `ReadLoopSound` from an empty state at the stream's own position. */
  lemma ReadLoopSoundFromStart(s: Stream)
    requires s.good && s.pos <= |s.text|
    ensures var r := ReadLoop(s, [], None);
      r.ok ==> (s.pos + 2 * StateBytes <= |s.text| && r.rest == AfterState(s.text, s.pos) &&
                forall k :: 0 <= k < StateBytes ==> PairAt(s.text, s.pos + 2 * k, r.state[k]))
  {
    ReadLoopSound(s, [], None, s.pos);
  }

  /** The digits of byte `k` of a printed state. */
  lemma PrintedDigits(t: string, q: nat, st: State, k: nat)
    requires q + 2 * StateBytes <= |t| && t[q..q + 2 * StateBytes] == HexString(st) && k < StateBytes
    ensures t[q + 2 * k] == HexByte(st[k])[0] && t[q + 2 * k + 1] == HexByte(st[k])[1]
  {
    HexStringAt(st, k);
    assert t[q + 2 * k] == HexString(st)[2 * k];
    assert t[q + 2 * k + 1] == HexString(st)[2 * k + 1];
  }

  /** The loop takes the first printed digit of byte `k` as the pending digit. */
  lemma ReadLoopHigh(t: string, q: nat, st: State, k: nat)
    requires q + 2 * StateBytes <= |t| && t[q..q + 2 * StateBytes] == HexString(st) && k < StateBytes
    ensures ReadLoop(Stream(t, q + 2 * k, true), st[..k], None) == ReadLoop(Stream(t, q + 2 * k + 1, true), st[..k], Some(HexByte(st[k])[0]))
  {
    PrintedDigits(t, q, st, k);
    ReadLoopDigit(Stream(t, q + 2 * k, true), st[..k], None);
  }

  /** The loop takes the second printed digit of byte `k` and appends that byte. */
  lemma ReadLoopLow(t: string, q: nat, st: State, k: nat)
    requires q + 2 * StateBytes <= |t| && t[q..q + 2 * StateBytes] == HexString(st) && k < StateBytes
    ensures ReadLoop(Stream(t, q + 2 * k + 1, true), st[..k], Some(HexByte(st[k])[0])) == ReadLoop(Stream(t, q + 2 * k + 2, true), st[..k + 1], None)
  {
    var d := HexByte(st[k]);
    PrintedDigits(t, q, st, k);
    HexByteRoundTrip(st[k]);
    assert PairValue(d[0], ToLower(t[q + 2 * k + 1])) == st[k];
    ReadLoopDigit(Stream(t, q + 2 * k + 1, true), st[..k], Some(d[0]));
    assert st[..k] + [st[k]] == st[..k + 1];
  }

  /** The loop takes the two printed digits of byte `k` and appends that byte. */
  lemma ReadLoopPair(t: string, q: nat, st: State, k: nat)
    requires q + 2 * StateBytes <= |t| && t[q..q + 2 * StateBytes] == HexString(st) && k < StateBytes
    ensures ReadLoop(Stream(t, q + 2 * k, true), st[..k], None) == ReadLoop(Stream(t, q + 2 * k + 2, true), st[..k + 1], None)
  {
    ReadLoopHigh(t, q, st, k);
    ReadLoopLow(t, q, st, k);
  }

  /** The character loop reads back printed digits, one pair per byte. */
  lemma {:induction false} ReadLoopRoundTrip(t: string, q: nat, st: State, k: nat)
    requires q + 2 * StateBytes <= |t| && t[q..q + 2 * StateBytes] == HexString(st) && k <= StateBytes
    ensures ReadLoop(Stream(t, q + 2 * k, true), st[..k], None) == StateRead(true, st, AfterState(t, q))
    decreases StateBytes - k
  {
    if k == StateBytes {
      assert st[..k] == st;
      ReadLoopFull(Stream(t, q + 2 * k, true), st);
    } else {
      ReadLoopPair(t, q, st, k);
      ReadLoopRoundTrip(t, q, st, k + 1);
    }
  }

  /**
   * `read_lowmc_state_bytes` inverts `print_lowmc_state_bytes`: after any
   * whitespace, the printed digits read back as the state, and the character
   * after them (the separator in a list) is consumed.
   */
  lemma ReadLowmcStateBytesRoundTrip(t: string, p: nat, q: nat, st: State)
    requires p <= q && q + 2 * StateBytes <= |t| && t[q..q + 2 * StateBytes] == PrintLowmcStateBytes(st)
    requires forall k :: p <= k < q ==> IsSpace(t[k])
    ensures ReadLowmcStateBytesSpec(Stream(t, p, true)) == StateRead(true, st, AfterState(t, q))
  {
    assert t[q] == HexString(st)[0];
    HexStringAt(st, 0);
    SkipWsAt(t, p, q);
    ReadLoopRoundTrip(t, q, st, 0);
  }

  /**
   * Models `hash1a`: the LowMC encryption of `b` under key `a`, with `b` XORed
   * back in; XORing `b` into the result again recovers the cipher output.
   */
  function Hash1a(p: Primitives, a: State, b: State): (r: State)
    ensures Xor(r, b) == p.lowmc(a, b)
  {
    XorAssoc(p.lowmc(a, b), b, b);
    XorSelf(b);
    XorZero(p.lowmc(a, b));
    Xor(p.lowmc(a, b), b)
  }

  /**
   * Models `hash1b`: `hash1a` of `a` and `b` becomes the key for encrypting
   * `c`, with `c` XORed back in; XORing `c` into the result again recovers
   * that encryption.
   */
  function Hash1b(p: Primitives, a: State, b: State, c: State): (r: State)
    ensures Xor(r, c) == p.lowmc(Hash1a(p, a, b), c)
  {
    var intermediate := Hash1a(p, a, b);
    var r := Xor(p.lowmc(intermediate, c), c);
    assert r == Hash1a(p, intermediate, c);
    r
  }

  /** `hash1b` chains `hash1a` twice, as the call the source leaves commented out would. */
  lemma Hash1bChains(p: Primitives, a: State, b: State, c: State)
    ensures Hash1b(p, a, b, c) == Hash1a(p, Hash1a(p, a, b), c)
  {
  }
}
