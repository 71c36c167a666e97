/**
 * Storing an unsigned integer into a byte buffer and loading it back, in
 * either byte order. The integer type is a parameter of the source's
 * templates; here it is its width in bytes, `width` (its `sizeof`), and a
 * value of that type is a natural number below `256^width`.
 */
module MemUint {

  /** An unsigned 8-bit memory cell, `uint8_t`. */
  type Byte = x: int | 0 <= x < 256

  /** `256^n`: one more than the largest value of an `n`-byte unsigned integer. */
  function Pow256(n: nat): (r: nat)
    ensures r >= 1
  {
    if n == 0 then 1 else 256 * Pow256(n - 1)
  }

  /** The `w` low bytes of `x`, least significant first. */
  function LeBytes(x: nat, w: nat): (r: seq<Byte>)
    ensures |r| == w
  {
    if w == 0 then [] else [x % 256] + LeBytes(x / 256, w - 1)
  }

  /** The bytes of `s` in the opposite order. */
  function Reverse(s: seq<Byte>): (r: seq<Byte>)
    ensures |r| == |s|
  {
    if s == [] then [] else [s[|s| - 1]] + Reverse(s[..|s| - 1])
  }

  /** The value of bytes stored least significant first. */
  function LeValue(b: seq<Byte>): nat
  {
    if b == [] then 0 else b[0] + 256 * LeValue(b[1..])
  }

  /** The value of bytes stored most significant first. */
  function BeValue(b: seq<Byte>): nat
  {
    if b == [] then 0 else 256 * BeValue(b[..|b| - 1]) + b[|b| - 1]
  }

  function Zeros(n: nat): (r: seq<Byte>)
    ensures |r| == n && forall i :: 0 <= i < n ==> r[i] == 0
  {
    seq(n, _ => 0)
  }

  /**
   * The `len` bytes `uint_to_mem` leaves in the buffer: the value's `width`
   * bytes in the requested order at the front, then zeros.
   */
  function Stored(ui: nat, width: nat, len: nat, bigEndian: bool): (r: seq<Byte>)
    requires width <= len
    ensures |r| == len
  {
    (if bigEndian then Reverse(LeBytes(ui, width)) else LeBytes(ui, width)) + Zeros(len - width)
  }

  /** The value `mem_to_uint` assembles from the bytes `b`. */
  function Loaded(b: seq<Byte>, bigEndian: bool): nat
  {
    if bigEndian then BeValue(b) else LeValue(b)
  }

  /** Element `k` of a reversed sequence is element `|s| - 1 - k` of the original. */
  lemma {:induction false} ReverseAt(s: seq<Byte>, k: nat)
    requires k < |s|
    ensures Reverse(s)[k] == s[|s| - 1 - k]
  {
    if k > 0 {
      ReverseAt(s[..|s| - 1], k - 1);
    }
  }

  /** Byte `k` of the stored bytes: a byte of the value below `width`, zero from there on. */
  lemma StoredAt(ui: nat, width: nat, len: nat, bigEndian: bool, k: nat)
    requires width <= len && k < len
    ensures Stored(ui, width, len, bigEndian)[k] ==
              if k >= width then 0 else if bigEndian then LeBytes(ui, width)[width - 1 - k] else LeBytes(ui, width)[k]
  {
    if bigEndian && k < width {
      ReverseAt(LeBytes(ui, width), k);
    }
  }

  /** A little-endian value read back from its own bytes is the value. */
  lemma {:induction false} LeRoundTrip(x: nat, w: nat)
    requires x < Pow256(w)
    ensures LeValue(LeBytes(x, w)) == x
  {
    if w > 0 {
      var q, r := x / 256, x % 256;
      assert x == 256 * q + r;
      assert q < Pow256(w - 1);
      LeRoundTrip(q, w - 1);
      var lb := LeBytes(x, w);
      assert lb[1..] == LeBytes(q, w - 1);
      assert lb[0] == r;
      assert LeValue(lb) == r + 256 * q;
    }
  }

  /** Reading reversed bytes most significant first is reading them least significant first. */
  lemma {:induction false} BeValueReverse(b: seq<Byte>)
    ensures BeValue(Reverse(b)) == LeValue(b)
  {
    if b != [] {
      var r := Reverse(b);
      assert r[..|r| - 1] == Reverse(b[1..]) by { ReverseFirst(b); }
      assert r[|r| - 1] == b[0] by { ReverseFirst(b); }
      BeValueReverse(b[1..]);
    }
  }

  /** Reversing a non-empty sequence moves its first element to the end. */
  lemma {:induction false} ReverseFirst(b: seq<Byte>)
    requires b != []
    ensures Reverse(b) == Reverse(b[1..]) + [b[0]]
  {
    if |b| > 1 {
      ReverseFirst(b[..|b| - 1]);
      assert b[..|b| - 1][1..] == b[1..][..|b[1..]| - 1];
    }
  }

  /** `n` bytes hold a value below `256^n`. */
  lemma {:induction false} LeValueBound(b: seq<Byte>)
    ensures LeValue(b) < Pow256(|b|)
  {
    if b != [] {
      LeValueBound(b[1..]);
    }
  }

  lemma {:induction false} BeValueBound(b: seq<Byte>)
    ensures BeValue(b) < Pow256(|b|)
  {
    if b != [] {
      BeValueBound(b[..|b| - 1]);
    }
  }

  /**
   * Storing a value into exactly its own width and loading it back in the
   * same byte order gives the value, for both orders.
   */
  lemma StoreLoadRoundTrip(x: nat, w: nat, bigEndian: bool)
    requires x < Pow256(w)
    ensures Loaded(Stored(x, w, w, bigEndian), bigEndian) == x
  {
    assert Stored(x, w, w, bigEndian) == if bigEndian then Reverse(LeBytes(x, w)) else LeBytes(x, w);
    LeRoundTrip(x, w);
    if bigEndian {
      BeValueReverse(LeBytes(x, w));
    }
  }

  /** Where `uint_to_mem` puts byte `i` of a `width`-byte value. */
  function Place(i: nat, width: nat, bigEndian: bool): nat
    requires i < width
  {
    if bigEndian then width - 1 - i else i
  }

  /**
   * The `len` bytes after the buffer is zeroed and the first `i` bytes `lb` of
   * the value are placed: those bytes where they go, zeros everywhere else.
   */
  function Partial(lb: seq<Byte>, i: nat, len: nat, bigEndian: bool): (r: seq<Byte>)
    requires i <= |lb| <= len
    ensures |r| == len
  {
    seq(len, k requires 0 <= k < len =>
      if bigEndian then (if |lb| - i <= k < |lb| then lb[|lb| - 1 - k] else 0)
      else (if k < i then lb[k] else 0))
  }

  /** Before any byte is placed the buffer is all zeros. */
  lemma PartialStart(lb: seq<Byte>, len: nat, bigEndian: bool)
    requires |lb| <= len
    ensures Partial(lb, 0, len, bigEndian) == Zeros(len)
  {
  }

  /** Placing byte `i` where it goes extends the placed bytes by one. */
  lemma PartialStep(lb: seq<Byte>, i: nat, len: nat, bigEndian: bool)
    requires i < |lb| <= len
    ensures Place(i, |lb|, bigEndian) < len
    ensures Partial(lb, i, len, bigEndian)[Place(i, |lb|, bigEndian) := lb[i]] == Partial(lb, i + 1, len, bigEndian)
  {
  }

  /** Once every byte of the value is placed, the buffer holds the stored bytes. */
  lemma PartialDone(ui: nat, width: nat, len: nat, bigEndian: bool)
    requires width <= len
    ensures Partial(LeBytes(ui, width), width, len, bigEndian) == Stored(ui, width, len, bigEndian)
  {
    forall k | 0 <= k < len
      ensures Partial(LeBytes(ui, width), width, len, bigEndian)[k] == Stored(ui, width, len, bigEndian)[k]
    {
      StoredAt(ui, width, len, bigEndian, k);
    }
  }

  /**
   * `uint_to_mem`: fails and leaves the buffer alone when the integer is wider
   * than the `len` bytes it is given; otherwise zeroes those bytes and writes
   * the value's bytes at the front, byte `i` at index `i` (little-endian) or at
   * `width - 1 - i` (big-endian).
   */
  method UintToMem(mem: array<Byte>, len: nat, ui: nat, width: nat, bigEndian: bool) returns (ok: bool)
    requires len <= mem.Length && ui < Pow256(width)
    modifies mem
    ensures ok <==> width <= len
    ensures !ok ==> mem[..] == old(mem[..])
    ensures ok ==> mem[..] == Stored(ui, width, len, bigEndian) + old(mem[len..])
  {
    if width > len {
      return false;
    }
    forall k | 0 <= k < len {
      mem[k] := 0;
    }
    ghost var lb := LeBytes(ui, width);
    PartialStart(lb, len, bigEndian);
    var u := ui;
    var i := 0;
    while i < width
      invariant 0 <= i <= width
      invariant LeBytes(u, width - i) == lb[i..]
      invariant mem[..len] == Partial(lb, i, len, bigEndian)
      invariant mem[len..] == old(mem[len..])
    {
      var index := if bigEndian then width - 1 - i else i;
      assert lb[i] == u % 256;
      PartialStep(lb, i, len, bigEndian);
      ghost var before := mem[..];
      mem[index] := u % 256;
      assert mem[..len] == before[..len][index := lb[i]];
      u := u / 256;
      i := i + 1;
    }
    PartialDone(ui, width, len, bigEndian);
    assert mem[..] == mem[..len] + mem[len..];
    return true;
  }

  /**
   * `mem_to_uint`: fails and leaves the result alone when the `len` bytes do
   * not fit the integer; otherwise reads them with `mem[0]` most significant
   * (big-endian) or `mem[len - 1]` most significant (little-endian).
   */
  method MemToUint(mem: array<Byte>, len: nat, width: nat, bigEndian: bool, ival0: nat) returns (ok: bool, ival: nat)
    requires 1 <= len <= mem.Length
    ensures ok <==> len <= width
    ensures !ok ==> ival == ival0
    ensures ok ==> ival == Loaded(mem[..len], bigEndian) && ival < Pow256(width)
  {
    if len > width {
      return false, ival0;
    }
    var index := if bigEndian then 0 else len - 1;
    ival := mem[index];
    var i := 1;
    assert mem[..1] == [mem[0]];
    assert mem[len - 1..len] == [mem[len - 1]];
    while i < len
      invariant 1 <= i <= len
      invariant bigEndian ==> ival == BeValue(mem[..i])
      invariant !bigEndian ==> ival == LeValue(mem[len - i..len])
    {
      index := if bigEndian then i else len - 1 - i;
      assert mem[..i + 1][..i] == mem[..i];
      assert mem[len - 1 - i..len][1..] == mem[len - i..len];
      ival := ival * 256 + mem[index];
      i := i + 1;
    }
    assert mem[len - len..len] == mem[..len];
    LeValueBound(mem[..len]);
    BeValueBound(mem[..len]);
    PowMonotone(len, width);
    return true, ival;
  }

  lemma {:induction false} PowMonotone(m: nat, n: nat)
    requires m <= n
    ensures Pow256(m) <= Pow256(n)
  {
    if m < n {
      PowMonotone(m, n - 1);
    }
  }
}
