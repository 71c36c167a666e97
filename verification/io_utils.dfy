/**
 * Text helpers shared by the list and state codecs: file-name separator
 * normalisation, ASCII case mapping, hexadecimal printing of byte buffers and
 * the hexadecimal byte readers. Character classes follow the "C" locale.
 *
 * An input stream is a value: the text, the position of the next character
 * and whether every extraction so far has succeeded (the stream's failbit is
 * clear). Once an extraction fails, every later one fails too.
 */
module IoUtils {
  import opened Options

  /** The directory separator of a POSIX build, and the one `make_filename` rewrites into it. */
  const DirSep: char := '/'
  const AltDirSep: char := '\\'

  // ---------------------------------------------------------------------
  // Character classes and case mapping

  /** `isspace` in the "C" locale: space, tab, newline, vertical tab, form feed, carriage return. */
  predicate IsSpace(c: char)
  {
    c == ' ' || '\t' <= c <= '\r'
  }

  /** `isprint` in the "C" locale: the ASCII characters from space to tilde. */
  predicate IsPrint(c: char)
  {
    ' ' <= c <= '~'
  }

  predicate IsHexDigit(c: char)
  {
    '0' <= c <= '9' || 'a' <= c <= 'f' || 'A' <= c <= 'F'
  }

  predicate IsUpper(c: char)
  {
    'A' <= c <= 'Z'
  }

  predicate IsLower(c: char)
  {
    'a' <= c <= 'z'
  }

  /** `tolower` in the "C" locale: only the 26 ASCII capitals change. */
  function ToLower(c: char): (r: char)
  {
    if IsUpper(c) then (c as int + 32) as char else c
  }

  /** `toupper` in the "C" locale: only the 26 ASCII small letters change. */
  function ToUpper(c: char): (r: char)
  {
    if IsLower(c) then (c as int - 32) as char else c
  }

  /** Models `str_tolower`: every character mapped by `tolower`. */
  function StrToLower(s: string): (r: string)
    ensures |r| == |s|
  {
    seq(|s|, i requires 0 <= i < |s| => ToLower(s[i]))
  }

  /** Models `str_toupper`: every character mapped by `toupper`. */
  function StrToUpper(s: string): (r: string)
    ensures |r| == |s|
  {
    seq(|s|, i requires 0 <= i < |s| => ToUpper(s[i]))
  }

  /**
   * Lower-casing keeps the length, maps each character on its own, leaves no
   * capital, changes nothing else, and doing it twice is doing it once.
   */
  lemma StrToLowerSpec(s: string)
    ensures |StrToLower(s)| == |s|
    ensures forall i :: 0 <= i < |s| ==> StrToLower(s)[i] == ToLower(s[i])
    ensures forall i :: 0 <= i < |s| ==> !IsUpper(StrToLower(s)[i])
    ensures forall i :: 0 <= i < |s| && !IsUpper(s[i]) ==> StrToLower(s)[i] == s[i]
    ensures StrToLower(StrToLower(s)) == StrToLower(s)
  {
  }

  /**
   * Upper-casing keeps the length, maps each character on its own, leaves no
   * small letter, changes nothing else, and doing it twice is doing it once.
   */
  lemma StrToUpperSpec(s: string)
    ensures |StrToUpper(s)| == |s|
    ensures forall i :: 0 <= i < |s| ==> StrToUpper(s)[i] == ToUpper(s[i])
    ensures forall i :: 0 <= i < |s| ==> !IsLower(StrToUpper(s)[i])
    ensures forall i :: 0 <= i < |s| && !IsLower(s[i]) ==> StrToUpper(s)[i] == s[i]
    ensures StrToUpper(StrToUpper(s)) == StrToUpper(s)
  {
  }

  /** Case-insensitive comparison does not depend on which case was applied first. */
  lemma LowerOfUpper(s: string)
    ensures StrToLower(StrToUpper(s)) == StrToLower(s)
  {
  }

  // ---------------------------------------------------------------------
  // File names

  /** Every alternative separator replaced by the directory separator. */
  function Normalise(s: string): (r: string)
  {
    seq(|s|, i requires 0 <= i < |s| => if s[i] == AltDirSep then DirSep else s[i])
  }

  /**
   * Models `std::string::find(c, from)`: the first position at or after
   * `from` holding `c`, or `None` for `npos`.
   */
  function Find(s: string, c: char, from: nat): (r: Option<nat>)
    ensures r.Some? ==> from <= r.value < |s| && s[r.value] == c
    ensures r.Some? ==> forall k :: from <= k < r.value ==> s[k] != c
    ensures r.None? ==> forall k :: from <= k < |s| ==> s[k] != c
    decreases |s| - from
  {
    if from >= |s| then None
    else if s[from] == c then Some(from)
    else Find(s, c, from + 1)
  }

  /**
   * Models `make_filename`: the base directory, the separator and the name,
   * with the alternative separators rewritten one at a time, each search
   * starting where the previous replacement was made.
   */
  method MakeFilename(baseDir: string, name: string) returns (fName: string)
    ensures fName == Normalise(baseDir + [DirSep] + name)
  {
    fName := baseDir + [DirSep] + name;
    ghost var orig := fName;
    ghost var norm := Normalise(orig);
    var pos: nat := 0;
    while true
      invariant |fName| == |orig| && pos <= |fName|
      invariant forall k :: 0 <= k < pos ==> fName[k] == norm[k]
      invariant forall k :: pos < k < |fName| ==> fName[k] == orig[k]
      invariant pos < |fName| ==> fName[pos] == orig[pos] || fName[pos] == norm[pos]
      decreases |fName| - pos, if pos < |fName| && fName[pos] == AltDirSep then 1 else 0
    {
      var found := Find(fName, AltDirSep, pos);
      if found.None? {
        break;
      }
      pos := found.value;
      fName := fName[pos := DirSep];
    }
  }

  /**
   * A made file name is the base directory, one separator and the name, each
   * normalised: its length is theirs plus one and it holds no alternative
   * separator.
   */
  lemma MakeFilenameShape(baseDir: string, name: string)
    ensures var r := Normalise(baseDir + [DirSep] + name);
      |r| == |baseDir| + 1 + |name| &&
      r[..|baseDir|] == Normalise(baseDir) && r[|baseDir|] == DirSep && r[|baseDir| + 1..] == Normalise(name) &&
      AltDirSep !in r
  {
    var s := baseDir + [DirSep] + name;
    var r := Normalise(s);
    assert r[..|baseDir|] == Normalise(baseDir);
    assert r[|baseDir| + 1..] == Normalise(name);
    assert forall k :: 0 <= k < |r| ==> r[k] != AltDirSep;
  }

  /** Normalising leaves a name without alternative separators unchanged, so normalising twice is normalising once. */
  lemma NormaliseFixes(s: string)
    ensures AltDirSep !in s <==> Normalise(s) == s
    ensures Normalise(Normalise(s)) == Normalise(s)
  {
    if Normalise(s) == s {
      assert forall k :: 0 <= k < |s| ==> s[k] == Normalise(s)[k];
    }
  }

  // ---------------------------------------------------------------------
  // Printing

  /** The lowercase hexadecimal digit of a nibble. */
  function HexDigit(n: bv8): (c: char)
    requires n < 16
    ensures IsHexDigit(c) && !IsUpper(c)
  {
    if n < 10 then ('0' as int + n as int) as char else ('a' as int + n as int - 10) as char
  }

  /** The value of a hexadecimal digit of either case. */
  function Nibble(c: char): (n: bv8)
    requires IsHexDigit(c)
    ensures n < 16
  {
    if '0' <= c <= '9' then (c as int - '0' as int) as bv8
    else if 'a' <= c <= 'f' then (c as int - 'a' as int + 10) as bv8
    else (c as int - 'A' as int + 10) as bv8
  }

  /** The byte two hexadecimal digits stand for, high nibble first (`stoul(hstr, nullptr, 16)`). */
  function PairValue(c0: char, c1: char): bv8
    requires IsHexDigit(c0) && IsHexDigit(c1)
  {
    (Nibble(c0) << 4) | Nibble(c1)
  }

  /** Models `print_hex_byte`: the byte as two lowercase hexadecimal digits, zero padded. */
  function HexByte(b: bv8): (r: string)
    ensures |r| == 2 && IsHexDigit(r[0]) && IsHexDigit(r[1]) && !IsUpper(r[0]) && !IsUpper(r[1])
  {
    [HexDigit(b >> 4), HexDigit(b & 0xF)]
  }

  lemma NibbleOfDigit(n: bv8)
    requires n < 16
    ensures Nibble(HexDigit(n)) == n
  {
  }

  /** The two digits of a printed byte read back as that byte. */
  lemma HexByteRoundTrip(b: bv8)
    ensures PairValue(HexByte(b)[0], HexByte(b)[1]) == b
  {
    NibbleOfDigit(b >> 4);
    NibbleOfDigit(b & 0xF);
  }

  /** The bytes printed one after the other, two digits each. */
  function HexString(buf: seq<bv8>): (r: string)
    ensures |r| == 2 * |buf|
  {
    if buf == [] then [] else HexByte(buf[0]) + HexString(buf[1..])
  }

  /** Byte `i` is printed at characters `2i` and `2i+1`. */
  lemma {:induction false} HexStringAt(buf: seq<bv8>, i: nat)
    requires i < |buf|
    ensures HexString(buf)[2 * i..2 * i + 2] == HexByte(buf[i])
  {
    if i > 0 {
      HexStringAt(buf[1..], i - 1);
      assert HexString(buf) == HexByte(buf[0]) + HexString(buf[1..]);
    }
  }

  /** Models `print_buffer`: "buffer empty" for no bytes, otherwise every byte as two hexadecimal digits. */
  function PrintBuffer(buf: seq<bv8>): (r: string)
    ensures |r| == if |buf| == 0 then 12 else 2 * |buf|
  {
    if |buf| == 0 then "buffer empty" else HexString(buf)
  }

  /**
   * A non-empty buffer prints as exactly two lowercase hexadecimal digits per
   * byte, in order; an empty one as the words "buffer empty".
   */
  lemma PrintBufferSpec(buf: seq<bv8>)
    ensures |buf| == 0 ==> PrintBuffer(buf) == "buffer empty"
    ensures |buf| > 0 ==> |PrintBuffer(buf)| == 2 * |buf|
    ensures |buf| > 0 ==> forall i :: 0 <= i < |buf| ==> PrintBuffer(buf)[2 * i..2 * i + 2] == HexByte(buf[i])
    ensures |buf| > 0 ==> forall k :: 0 <= k < 2 * |buf| ==> IsHexDigit(PrintBuffer(buf)[k]) && !IsUpper(PrintBuffer(buf)[k])
  {
    if |buf| > 0 {
      forall i | 0 <= i < |buf|
        ensures PrintBuffer(buf)[2 * i..2 * i + 2] == HexByte(buf[i])
      {
        HexStringAt(buf, i);
      }
      forall k | 0 <= k < 2 * |buf|
        ensures IsHexDigit(PrintBuffer(buf)[k]) && !IsUpper(PrintBuffer(buf)[k])
      {
        HexStringAt(buf, k / 2);
        assert PrintBuffer(buf)[k] == HexByte(buf[k / 2])[k % 2];
      }
    }
  }

  /** A byte seen as the character with that code. */
  function ByteChar(b: bv8): char
  {
    (b as int) as char
  }

  /** Whether `print_buffer_as_chars` writes a byte as itself. */
  predicate Shown(b: bv8)
  {
    IsSpace(ByteChar(b)) || IsPrint(ByteChar(b))
  }

  /** Models `print_buffer_as_chars`: whitespace and printable bytes as themselves, any other byte as the replacement. */
  function PrintBufferAsChars(buf: seq<bv8>, replacement: bv8): (r: string)
    ensures |r| == |buf|
  {
    seq(|buf|, i requires 0 <= i < |buf| => if Shown(buf[i]) then ByteChar(buf[i]) else ByteChar(replacement))
  }

  /**
   * One character per byte; with a printable replacement the output is all
   * printable or whitespace, and text made only of such bytes comes out
   * unchanged.
   */
  lemma PrintBufferAsCharsSpec(buf: seq<bv8>, replacement: bv8)
    ensures |PrintBufferAsChars(buf, replacement)| == |buf|
    ensures Shown(replacement) ==>
      forall i :: 0 <= i < |buf| ==> IsSpace(PrintBufferAsChars(buf, replacement)[i]) || IsPrint(PrintBufferAsChars(buf, replacement)[i])
    ensures (forall i :: 0 <= i < |buf| ==> Shown(buf[i])) ==>
      PrintBufferAsChars(buf, replacement) == seq(|buf|, i requires 0 <= i < |buf| => ByteChar(buf[i]))
    ensures forall i :: 0 <= i < |buf| && !Shown(buf[i]) ==> PrintBufferAsChars(buf, replacement)[i] == ByteChar(replacement)
  {
  }

  // ---------------------------------------------------------------------
  // Streams and reading

  /** An input stream: its text, the index of the next character, and whether no extraction has failed. */
  datatype Stream = Stream(text: string, pos: nat, good: bool)

  /** Models `is.get(c)`: the next character, or `None` with the failbit set when there is none or the stream has failed. */
  function Get(s: Stream): (r: (Option<char>, Stream))
    ensures r.0.Some? <==> s.good && s.pos < |s.text|
    ensures r.0.Some? ==> r.0.value == s.text[s.pos] && r.1 == s.(pos := s.pos + 1)
    ensures r.0.None? ==> r.1 == s.(good := false)
  {
    if s.good && s.pos < |s.text| then (Some(s.text[s.pos]), s.(pos := s.pos + 1))
    else (None, s.(good := false))
  }

  /** Models `is >> std::ws`: skips whitespace; reaching the end is not a failure. */
  function SkipWs(s: Stream): (r: Stream)
    ensures r.text == s.text && r.good == s.good
    ensures s.good && s.pos <= |s.text| ==> s.pos <= r.pos <= |s.text|
    ensures !s.good ==> r == s
    decreases |s.text| - s.pos
  {
    if s.good && s.pos < |s.text| && IsSpace(s.text[s.pos]) then SkipWs(s.(pos := s.pos + 1)) else s
  }

  /** What `SkipWs` skips is whitespace, and it stops at the end of input or at a non-space. */
  lemma {:induction false} SkipWsSpec(s: Stream)
    requires s.good && s.pos <= |s.text|
    ensures forall k :: s.pos <= k < SkipWs(s).pos ==> IsSpace(s.text[k])
    ensures SkipWs(s).pos == |s.text| || !IsSpace(s.text[SkipWs(s).pos])
    decreases |s.text| - s.pos
  {
    if s.pos < |s.text| && IsSpace(s.text[s.pos]) {
      SkipWsSpec(s.(pos := s.pos + 1));
    }
  }

  /** Whitespace from `p` up to a non-space or the end at `q` is skipped up to `q`. */
  lemma {:induction false} SkipWsAt(t: string, p: nat, q: nat)
    requires p <= q <= |t| && forall k :: p <= k < q ==> IsSpace(t[k])
    requires q == |t| || !IsSpace(t[q])
    ensures SkipWs(Stream(t, p, true)) == Stream(t, q, true)
    decreases q - p
  {
    if p < q {
      SkipWsAt(t, p + 1, q);
    }
  }

  /** The character a failed `get` leaves in a buffer cell that held `prev`. */
  function GotOr(g: Option<char>, prev: char): char
  {
    if g.Some? then g.value else prev
  }

  /**
   * Models `read_hex_byte`: two characters into a fresh buffer of two NULs,
   * accepted when both are hexadecimal digits. A character that cannot be
   * read leaves its NUL, which is not a digit.
   */
  function ReadHexByte(s: Stream): (r: (Option<bv8>, Stream))
  {
    var g0 := Get(s);
    var g1 := Get(g0.1);
    var c0 := GotOr(g0.0, '\0');
    var c1 := GotOr(g1.0, '\0');
    if IsHexDigit(c0) && IsHexDigit(c1) then (Some(PairValue(c0, c1)), g1.1) else (None, g1.1)
  }

  /**
   * A byte is read exactly when the stream is good and its next two
   * characters are hexadecimal digits; it is their value and both are consumed.
   */
  lemma ReadHexByteSpec(s: Stream)
    ensures ReadHexByte(s).0.Some? <==>
      s.good && s.pos + 2 <= |s.text| && IsHexDigit(s.text[s.pos]) && IsHexDigit(s.text[s.pos + 1])
    ensures ReadHexByte(s).0.Some? ==>
      ReadHexByte(s).0.value == PairValue(s.text[s.pos], s.text[s.pos + 1]) && ReadHexByte(s).1 == s.(pos := s.pos + 2)
  {
  }

  /** What a multi-byte read produced: success, the bytes written in order, and the stream afterwards. */
  datatype HexBytes = HexBytes(ok: bool, bytes: seq<bv8>, rest: Stream)

  /**
   * `read_hex_bytes` as written: its two-character buffer is declared once,
   * outside the loop, so when a `get` fails the cell keeps the previous
   * pair's character and the check passes on stale digits. `h0` and `h1` are
   * the buffer's contents before the next pair.
   */
  function ReadHexBytesAsWritten(s: Stream, n: nat, h0: char, h1: char): (r: HexBytes)
    ensures |r.bytes| <= n && (r.ok <==> |r.bytes| == n)
    decreases n
  {
    if n == 0 then HexBytes(true, [], s)
    else
      var g0 := Get(s);
      var g1 := Get(g0.1);
      var c0 := GotOr(g0.0, h0);
      var c1 := GotOr(g1.0, h1);
      if !(IsHexDigit(c0) && IsHexDigit(c1)) then HexBytes(false, [], g1.1)
      else
        var r := ReadHexBytesAsWritten(g1.1, n - 1, c0, c1);
        HexBytes(r.ok, [PairValue(c0, c1)] + r.bytes, r.rest)
  }

  /**
   * The stale buffer lets truncated input through: asked for two bytes from
   * the two characters "ab", the reader as written reports success and
   * writes 0xab twice.
   */
  lemma TruncatedInputAccepted()
    ensures ReadHexBytesAsWritten(Stream("ab", 0, true), 2, '\0', '\0') == HexBytes(true, [0xab, 0xab], Stream("ab", 2, false))
  {
    var s := Stream("ab", 0, true);
    assert Get(s) == (Some('a'), Stream("ab", 1, true));
    assert Get(Stream("ab", 1, true)) == (Some('b'), Stream("ab", 2, true));
    assert PairValue('a', 'b') == 0xab;
    assert ReadHexBytesAsWritten(Stream("ab", 2, true), 1, 'a', 'b') == HexBytes(true, [0xab], Stream("ab", 2, false));
  }

  /**
   * The reader as intended: `n` successive `read_hex_byte` calls, stopping at
   * the first that fails. `done` are the bytes decoded before `s`.
   */
  function HexBytesFrom(s: Stream, n: nat, done: seq<bv8>): (r: HexBytes)
    decreases n
  {
    if n == 0 then HexBytes(true, done, s)
    else
      var g := ReadHexByte(s);
      if g.0.None? then HexBytes(false, done, g.1) else HexBytesFrom(g.1, n - 1, done + [g.0.value])
  }

  function ReadHexBytesSpec(s: Stream, n: nat): HexBytes
  {
    HexBytesFrom(s, n, [])
  }

  /**
   * Decoding from a good stream: success means all `n` pairs were there and
   * were consumed, failure means fewer than `n` bytes were written; the bytes
   * decoded before are kept in front.
   */
  lemma {:induction false} HexBytesFromShape(s: Stream, n: nat, done: seq<bv8>)
    requires s.good && s.pos <= |s.text|
    ensures var r := HexBytesFrom(s, n, done);
      |done| <= |r.bytes| <= |done| + n && r.bytes[..|done|] == done &&
      (r.ok <==> |r.bytes| == |done| + n) &&
      (r.ok ==> s.pos + 2 * n <= |s.text| && r.rest == s.(pos := s.pos + 2 * n))
    decreases n
  {
    if n > 0 && ReadHexByte(s).0.Some? {
      HexBytesFromStep(s, n, done);
      var s1 := s.(pos := s.pos + 2);
      var done1 := done + [ReadHexByte(s).0.value];
      HexBytesFromShape(s1, n - 1, done1);
      var r := HexBytesFrom(s, n, done);
      assert r == HexBytesFrom(s1, n - 1, done1);
      assert r.bytes[..|done|] == r.bytes[..|done1|][..|done|];
      assert r.ok ==> s.pos + 2 * n == s1.pos + 2 * (n - 1);
    }
  }

  /** Characters `p` and `p+1` of `t` are hexadecimal digits standing for `b`. */
  predicate PairAt(t: string, p: nat, b: bv8)
  {
    p + 1 < |t| && IsHexDigit(t[p]) && IsHexDigit(t[p + 1]) && b == PairValue(t[p], t[p + 1])
  }

  /** Each byte a read from a good stream writes is the value of the next pair of characters, in order. */
  lemma {:induction false} HexBytesFromValues(s: Stream, n: nat, done: seq<bv8>)
    requires s.good && s.pos <= |s.text|
    ensures var r := HexBytesFrom(s, n, done);
      forall i :: |done| <= i < |r.bytes| ==> PairAt(s.text, s.pos + 2 * (i - |done|), r.bytes[i])
    decreases n
  {
    if n > 0 && ReadHexByte(s).0.Some? {
      HexBytesFromStep(s, n, done);
      var b := ReadHexByte(s).0.value;
      var s1 := s.(pos := s.pos + 2);
      var done1 := done + [b];
      HexBytesFromValues(s1, n - 1, done1);
      var r := HexBytesFrom(s, n, done);
      assert r == HexBytesFrom(s1, n - 1, done1);
      HexBytesFromKeeps(s1, n - 1, done, b);
      PairsShift(s.text, s.pos, s1.pos, |done|, |done1|, b, r.bytes);
    }
  }

  /** A byte read from a good stream is the pair at its position, and the rest of the read starts two characters on. */
  lemma HexBytesFromStep(s: Stream, n: nat, done: seq<bv8>)
    requires n > 0 && ReadHexByte(s).0.Some?
    ensures var b := ReadHexByte(s).0.value;
      PairAt(s.text, s.pos, b) && s.good &&
      HexBytesFrom(s, n, done) == HexBytesFrom(s.(pos := s.pos + 2), n - 1, done + [b])
  {
    ReadHexByteSpec(s);
  }

  /** The byte decoded before a read from a good stream stays at its index. */
  lemma HexBytesFromKeeps(s: Stream, n: nat, done: seq<bv8>, b: bv8)
    requires s.good && s.pos <= |s.text|
    ensures var r := HexBytesFrom(s, n, done + [b]);
      |done| < |r.bytes| && r.bytes[|done|] == b
  {
    HexBytesFromShape(s, n, done + [b]);
    var r := HexBytesFrom(s, n, done + [b]);
    assert r.bytes[|done|] == r.bytes[..|done| + 1][|done|];
  }

  /** A pair at `p` for byte `k`, then pairs from `p + 2` for the bytes after it, are pairs from `p` for all of them. */
  lemma PairsShift(t: string, p: nat, q: nat, k: nat, k1: nat, b: bv8, bytes: seq<bv8>)
    requires q == p + 2 && k1 == k + 1
    requires PairAt(t, p, b) && k < |bytes| && bytes[k] == b
    requires forall i :: k1 <= i < |bytes| ==> PairAt(t, q + 2 * (i - k1), bytes[i])
    ensures forall i :: k <= i < |bytes| ==> PairAt(t, p + 2 * (i - k), bytes[i])
  {
    forall i | k <= i < |bytes|
      ensures PairAt(t, p + 2 * (i - k), bytes[i])
    {
      if i > k {
        assert q + 2 * (i - k1) == p + 2 * (i - k);
      }
    }
  }

  /** The intended reader never reports success on input shorter than `2n` characters. */
  lemma ReadHexBytesNeedsInput(s: Stream, n: nat)
    requires s.good && s.pos <= |s.text| < s.pos + 2 * n
    ensures !ReadHexBytesSpec(s, n).ok
  {
    HexBytesFromShape(s, n, []);
  }

  /** Reading `|buf|` bytes from the printed digits of `buf` gives `buf` back and consumes exactly those digits. */
  lemma {:induction false} HexBytesFromRoundTrip(t: string, p: nat, buf: seq<bv8>, done: seq<bv8>)
    requires p + 2 * |buf| <= |t| && t[p..p + 2 * |buf|] == HexString(buf)
    ensures HexBytesFrom(Stream(t, p, true), |buf|, done) == HexBytes(true, done + buf, Stream(t, p + 2 * |buf|, true))
    decreases |buf|
  {
    if buf != [] {
      var s := Stream(t, p, true);
      assert t[p..p + 2] == HexString(buf)[..2] == HexByte(buf[0]);
      assert t[p + 2..p + 2 * |buf|] == HexString(buf)[2..] == HexString(buf[1..]);
      ReadHexByteSpec(s);
      HexByteRoundTrip(buf[0]);
      assert ReadHexByte(s) == (Some(buf[0]), Stream(t, p + 2, true));
      HexBytesFromRoundTrip(t, p + 2, buf[1..], done + [buf[0]]);
      assert done + [buf[0]] + buf[1..] == done + buf;
    } else {
      assert done + buf == done;
    }
  }

  /** The intended `read_hex_bytes` inverts `print_buffer`. */
  lemma ReadHexBytesRoundTrip(buf: seq<bv8>, before: string, after: string)
    requires |buf| > 0
    ensures var t := before + PrintBuffer(buf) + after;
      ReadHexBytesSpec(Stream(t, |before|, true), |buf|) == HexBytes(true, buf, Stream(t, |before| + 2 * |buf|, true))
  {
    var t := before + PrintBuffer(buf) + after;
    assert t[|before|..|before| + 2 * |buf|] == HexString(buf);
    HexBytesFromRoundTrip(t, |before|, buf, []);
    assert [] + buf == buf;
  }

  /**
   * Models `read_hex_bytes` with the two-character buffer fresh for every
   * pair: the bytes go into `buf` in order until a pair fails; cells past the
   * written ones are left alone.
   */
  method ReadHexBytes(s: Stream, buf: array<bv8>, n: nat) returns (ok: bool, rest: Stream)
    requires n <= buf.Length
    modifies buf
    ensures var r := ReadHexBytesSpec(s, n);
      ok == r.ok && rest == r.rest && |r.bytes| <= buf.Length &&
      buf[..|r.bytes|] == r.bytes && buf[|r.bytes|..] == old(buf[|r.bytes|..])
  {
    rest := s;
    var i := 0;
    while i < n
      invariant 0 <= i <= n
      invariant HexBytesFrom(rest, n - i, buf[..i]) == ReadHexBytesSpec(s, n)
      invariant forall k :: i <= k < buf.Length ==> buf[k] == old(buf[k])
    {
      var g := ReadHexByte(rest);
      if g.0.None? {
        return false, g.1;
      }
      buf[i] := g.0.value;
      assert buf[..i + 1] == buf[..i] + [g.0.value];
      rest := g.1;
      i := i + 1;
    }
    ok := true;
  }
}
