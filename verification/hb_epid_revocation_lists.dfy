/**
 * The revocation lists (`Hb_epid_rl`): a named, ordered list of entries, each
 * one or two LowMC states, with a plain-text form that is read and printed.
 * The text form is a header line "<list name> <size> entries" followed by one
 * line per entry, the states as hexadecimal digits.
 */
module RevocationLists {
  import opened Options
  import opened Params
  import opened LowmcState
  import opened IoUtils
  import opened Lowmc32

  /**
   * A list entry: `Epid_rl_entry` holds two states (a signature-based
   * revocation entry: `first` a value from a revoked signature, `second` the
   * revoked key's image), `Epid_list_entry` a single state. Entries are
   * values, so copying or assigning one copies its states exactly.
   */
  datatype RlEntry = Pair(first: State, second: State) | Single(entry: State)

  /** A signature-based revocation list entry. */
  type EpidSigrlEntry = e: RlEntry | e.Pair? witness Pair(Zero(), Zero())

  /** The three lists: `Epid_sig_rl` with pair entries, `Epid_a_rl` and `Epid_key_rl` with single entries. */
  datatype ListKind = SigRl | ARl | KeyRl

  /** The `list_name` of each list's entry type. */
  function ListName(k: ListKind): string
  {
    match k
    case SigRl => "sigRL"
    case ARl => "RL_a"
    case KeyRl => "keyRL"
  }

  /** A non-empty run of characters none of which is whitespace: what `>>` reads as one string. */
  predicate IsToken(w: string)
  {
    |w| > 0 && forall i :: 0 <= i < |w| ==> !IsSpace(w[i])
  }

  /**
   * The three list names are pairwise distinct, so the name check in
   * `read_rl` tells the lists apart, and each is read back as one token.
   */
  lemma ListNamesDistinct()
    ensures ListName(SigRl) != ListName(ARl) && ListName(SigRl) != ListName(KeyRl) && ListName(ARl) != ListName(KeyRl)
    ensures forall k: ListKind :: IsToken(ListName(k))
  {
    assert ListName(SigRl)[0] != ListName(ARl)[0];
    assert ListName(SigRl)[0] != ListName(KeyRl)[0];
    assert ListName(ARl)[0] != ListName(KeyRl)[0];
  }

  /** The entry type a list holds: pairs on the SigRL, single states on the other two. */
  predicate EntryFits(k: ListKind, e: RlEntry)
  {
    (k == SigRl) == e.Pair?
  }

  /** A default-constructed entry: every state zero. */
  function DefaultEntry(k: ListKind): (e: RlEntry)
    ensures EntryFits(k, e)
  {
    if k == SigRl then Pair(Zero(), Zero()) else Single(Zero())
  }

  // ---------------------------------------------------------------------
  // Entries

  /**
   * Models `print_entry`: a pair as its first state, a tab, its second
   * state and a newline; a single entry as its state and a newline.
   */
  function PrintEntry(e: RlEntry): (r: string)
    ensures |r| == if e.Pair? then 4 * StateBytes + 2 else 2 * StateBytes + 1
    ensures e.Pair? ==> r[2 * StateBytes] == '\t'
    ensures r[|r| - 1] == '\n'
  {
    match e
    case Pair(first, second) => PrintLowmcStateBytes(first) + "\t" + PrintLowmcStateBytes(second) + "\n"
    case Single(entry) => PrintLowmcStateBytes(entry) + "\n"
  }

  /** What reading an entry gives: success, the entry's new contents, and the stream afterwards. */
  datatype EntryRead = EntryRead(ok: bool, entry: RlEntry, rest: Stream)

  /**
   * `read_entry` on entry `e`: each state is read in place, and a failed
   * read zeroes its state. A pair stops after a failed first state, leaving
   * the second as it was.
   */
  function ReadEntrySpec(e: RlEntry, s: Stream): (r: EntryRead)
    ensures r.entry.Pair? == e.Pair?
  {
    var a := ReadLowmcStateBytesSpec(s);
    match e
    case Pair(_, second) =>
      if !a.ok then EntryRead(false, Pair(a.state, second), a.rest)
      else
        var b := ReadLowmcStateBytesSpec(a.rest);
        EntryRead(b.ok, Pair(a.state, b.state), b.rest)
    case Single(_) => EntryRead(a.ok, Single(a.state), a.rest)
  }

  /** Models `read_entry`: the first state, then (for a pair, only if that succeeded) the second. */
  method ReadEntry(e: RlEntry, s: Stream) returns (ok: bool, e': RlEntry, rest: Stream)
    ensures EntryRead(ok, e', rest) == ReadEntrySpec(e, s)
  {
    var okA, a, restA := ReadLowmcStateBytes(s);
    match e
    case Pair(_, second) =>
      if !okA {
        return false, Pair(a, second), restA;
      }
      var okB, b, restB := ReadLowmcStateBytes(restA);
      return okB, Pair(a, b), restB;
    case Single(_) =>
      return okA, Single(a), restA;
  }

  /**
   * A failed first state fails the pair at once: the first state is zero,
   * the second keeps its old value, and nothing after the first read is
   * consumed. A failed second state fails the pair too.
   */
  lemma ReadEntryFailures(e: RlEntry, s: Stream)
    ensures var a := ReadLowmcStateBytesSpec(s);
      e.Pair? && !a.ok ==> ReadEntrySpec(e, s) == EntryRead(false, Pair(Zero(), e.second), a.rest)
    ensures var a := ReadLowmcStateBytesSpec(s);
      e.Pair? && a.ok && !ReadLowmcStateBytesSpec(a.rest).ok ==> !ReadEntrySpec(e, s).ok && ReadEntrySpec(e, s).entry.second == Zero()
    ensures ReadEntrySpec(e, s).ok ==> ReadLowmcStateBytesSpec(s).ok
  {
  }

  /** `w` is found in `t` at position `p`. */
  predicate TextAt(t: string, p: nat, w: string)
  {
    p + |w| <= |t| && forall i :: 0 <= i < |w| ==> t[p + i] == w[i]
  }

  /** `w` is found at `p` exactly when it is the slice of `t` starting there. */
  lemma TextAtSlice(t: string, p: nat, w: string)
    requires p + |w| <= |t|
    ensures TextAt(t, p, w) <==> t[p..p + |w|] == w
  {
    if TextAt(t, p, w) {
      assert forall i :: 0 <= i < |w| ==> t[p..p + |w|][i] == w[i];
    }
  }

  /** Character `i` of text found at `p` is at `p + i`. */
  lemma TextAtIndex(t: string, p: nat, w: string, i: nat)
    requires TextAt(t, p, w) && i < |w|
    ensures t[p + i] == w[i]
  {
  }

  /** Text found at `p` that is a concatenation has its parts one after the other. */
  lemma TextAtConcat(t: string, p: nat, a: string, b: string)
    requires TextAt(t, p, a + b)
    ensures TextAt(t, p, a) && TextAt(t, p + |a|, b)
  {
    forall i | 0 <= i < |a|
      ensures t[p + i] == a[i]
    {
      assert (a + b)[i] == a[i];
    }
    forall i | 0 <= i < |b|
      ensures t[p + |a| + i] == b[i]
    {
      assert (a + b)[|a| + i] == b[i];
    }
  }

  /** A printed pair reads back as that pair, and the stream stops just past its newline. */
  lemma ReadPairRoundTrip(e0: RlEntry, first: State, second: State, t: string, p: nat, q: nat)
    requires e0.Pair? && p <= q && TextAt(t, q, PrintEntry(Pair(first, second)))
    requires forall k :: p <= k < q ==> IsSpace(t[k])
    ensures ReadEntrySpec(e0, Stream(t, p, true)) == EntryRead(true, Pair(first, second), Stream(t, q + 4 * StateBytes + 2, true))
  {
    var n := 2 * StateBytes;
    var a := PrintLowmcStateBytes(first);
    var b := PrintLowmcStateBytes(second);
    assert PrintEntry(Pair(first, second)) == (a + "\t") + (b + "\n");
    TextAtConcat(t, q, a + "\t", b + "\n");
    TextAtConcat(t, q, a, "\t");
    TextAtConcat(t, q + n + 1, b, "\n");
    TextAtSlice(t, q, a);
    TextAtSlice(t, q + n + 1, b);
    ReadLowmcStateBytesRoundTrip(t, p, q, first);
    assert AfterState(t, q) == Stream(t, q + n + 1, true);
    ReadLowmcStateBytesRoundTrip(t, q + n + 1, q + n + 1, second);
    assert AfterState(t, q + n + 1) == Stream(t, q + 2 * n + 2, true);
  }

  /** A printed single entry reads back as that entry, and the stream stops just past its newline. */
  lemma ReadSingleRoundTrip(e0: RlEntry, entry: State, t: string, p: nat, q: nat)
    requires e0.Single? && p <= q && TextAt(t, q, PrintEntry(Single(entry)))
    requires forall k :: p <= k < q ==> IsSpace(t[k])
    ensures ReadEntrySpec(e0, Stream(t, p, true)) == EntryRead(true, Single(entry), Stream(t, q + 2 * StateBytes + 1, true))
  {
    var a := PrintLowmcStateBytes(entry);
    TextAtConcat(t, q, a, "\n");
    TextAtSlice(t, q, a);
    ReadLowmcStateBytesRoundTrip(t, p, q, entry);
    assert AfterState(t, q) == Stream(t, q + 2 * StateBytes + 1, true);
  }

  /**
   * Reading an entry back from its printed line, after any whitespace, gives
   * the printed entry (into an entry of the same type) and leaves the stream
   * just past the line.
   */
  lemma ReadEntryRoundTrip(e0: RlEntry, e: RlEntry, t: string, p: nat, q: nat)
    requires e0.Pair? == e.Pair? && p <= q && TextAt(t, q, PrintEntry(e))
    requires forall k :: p <= k < q ==> IsSpace(t[k])
    ensures ReadEntrySpec(e0, Stream(t, p, true)) == EntryRead(true, e, Stream(t, q + |PrintEntry(e)|, true))
  {
    match e
    case Pair(first, second) =>
      ReadPairRoundTrip(e0, first, second, t, p, q);
    case Single(entry) =>
      ReadSingleRoundTrip(e0, entry, t, p, q);
  }

  // ---------------------------------------------------------------------
  // Formatted extraction of the header

  predicate IsDigit(c: char)
  {
    '0' <= c <= '9'
  }

  function DigitChar(d: nat): (c: char)
    requires d < 10
    ensures IsDigit(c)
  {
    ('0' as int + d) as char
  }

  /** A size written in decimal, as `os << rl_.size()` does. */
  function NatToString(n: nat): (r: string)
    ensures |r| > 0
    decreases n
  {
    if n < 10 then [DigitChar(n)] else NatToString(n / 10) + [DigitChar(n % 10)]
  }

  predicate AllDigits(d: string)
  {
    forall i :: 0 <= i < |d| ==> IsDigit(d[i])
  }

  /** The value of a run of decimal digits, most significant first. */
  function DigitsValue(d: string): nat
    requires AllDigits(d)
  {
    if d == [] then 0 else DigitsValue(d[..|d| - 1]) * 10 + (d[|d| - 1] as int - '0' as int)
  }

  /** A size printed in decimal is all digits and reads back as that size. */
  lemma {:induction false} NatToStringRoundTrip(n: nat)
    ensures AllDigits(NatToString(n)) && DigitsValue(NatToString(n)) == n
    decreases n
  {
    if n >= 10 {
      NatToStringRoundTrip(n / 10);
      var d := NatToString(n);
      assert d[..|d| - 1] == NatToString(n / 10);
    }
  }

  /** The end of the run of non-whitespace characters starting at `p`. */
  function TokenEnd(t: string, p: nat): (e: nat)
    requires p <= |t|
    ensures p <= e <= |t|
    decreases |t| - p
  {
    if p == |t| || IsSpace(t[p]) then p else TokenEnd(t, p + 1)
  }

  /** The run `TokenEnd` ends holds no whitespace, and it ends at whitespace or the end. */
  lemma {:induction false} TokenEndSpec(t: string, p: nat)
    requires p <= |t|
    ensures forall k :: p <= k < TokenEnd(t, p) ==> !IsSpace(t[k])
    ensures TokenEnd(t, p) == |t| || IsSpace(t[TokenEnd(t, p)])
    decreases |t| - p
  {
    if p < |t| && !IsSpace(t[p]) {
      TokenEndSpec(t, p + 1);
    }
  }

  /** The end of the run of decimal digits starting at `p`. */
  function DigitsEnd(t: string, p: nat): (e: nat)
    requires p <= |t|
    ensures p <= e <= |t|
    decreases |t| - p
  {
    if p == |t| || !IsDigit(t[p]) then p else DigitsEnd(t, p + 1)
  }

  /** The run `DigitsEnd` ends holds only digits, and it ends at a non-digit or the end. */
  lemma {:induction false} DigitsEndSpec(t: string, p: nat)
    requires p <= |t|
    ensures forall k :: p <= k < DigitsEnd(t, p) ==> IsDigit(t[k])
    ensures DigitsEnd(t, p) == |t| || !IsDigit(t[DigitsEnd(t, p)])
    decreases |t| - p
  {
    if p < |t| && IsDigit(t[p]) {
      DigitsEndSpec(t, p + 1);
    }
  }

  /**
   * `is >> str` for a string: skip whitespace, then take the characters up
   * to the next whitespace or the end; no character at all is a failure.
   * This is where the stream is left.
   */
  function ReadTokenRest(s: Stream): (r: Stream)
    ensures r.text == s.text
  {
    var s1 := SkipWs(s);
    if !s1.good || s1.pos >= |s1.text| then s1.(good := false) else s1.(pos := TokenEnd(s1.text, s1.pos))
  }

  /** The string `is >> str` reads: the characters between the whitespace skipped and where the stream is left. */
  function ReadTokenWord(s: Stream): (w: string)
    ensures s.pos <= |s.text| && ReadTokenRest(s).good ==> IsToken(w)
    ensures !ReadTokenRest(s).good ==> w == ""
  {
    var s1 := SkipWs(s);
    if !s1.good || s1.pos >= |s1.text| then ""
    else
      SkipWsSpec(s);
      TokenEndSpec(s1.text, s1.pos);
      s1.text[s1.pos..TokenEnd(s1.text, s1.pos)]
  }

  /** `size_t` is 64 bits wide: its largest value, `SIZE_MAX`. */
  const SizeMax: nat := 0xFFFF_FFFF_FFFF_FFFF

  /**
   * A count from which `resize` always throws `length_error`: `max_size()`
   * is at most `SIZE_MAX / sizeof(T)`, and every entry is more than one byte
   * long, so no list can hold 2^63 entries.
   */
  const ResizeLimit: nat := 0x8000_0000_0000_0000

  /** The end of the optional sign `>>` takes in front of an integer's digits. */
  function SignEnd(t: string, p: nat): (b: nat)
    requires p <= |t|
    ensures p <= b <= |t|
  {
    if p < |t| && (t[p] == '+' || t[p] == '-') then p + 1 else p
  }

  /** The value of a decimal digit character; other characters count as 0. */
  function DigitOf(c: char): (v: nat)
    ensures v < 10
  {
    if IsDigit(c) then c as int - '0' as int else 0
  }

  /** The value of the characters `t[b..e]` read as decimal digits, most significant first. */
  function DigitsValueIn(t: string, b: nat, e: nat): nat
    requires b <= e <= |t|
    decreases e - b
  {
    if e == b then 0 else DigitsValueIn(t, b, e - 1) * 10 + DigitOf(t[e - 1])
  }

  /** The value of the run of decimal digits starting at `b`. */
  function Magnitude(t: string, b: nat): nat
    requires b <= |t|
  {
    DigitsValueIn(t, b, DigitsEnd(t, b))
  }

  /** Digits found in the text have the value of the digit string. */
  lemma {:induction false} DigitsValueInAt(t: string, b: nat, d: string)
    requires AllDigits(d) && TextAt(t, b, d)
    ensures b + |d| <= |t| && DigitsValueIn(t, b, b + |d|) == DigitsValue(d)
    decreases |d|
  {
    if d != [] {
      var d' := d[..|d| - 1];
      assert TextAt(t, b, d') by {
        forall i | 0 <= i < |d'|
          ensures t[b + i] == d'[i]
        {
          TextAtIndex(t, b, d, i);
        }
      }
      DigitsValueInAt(t, b, d');
      TextAtIndex(t, b, d, |d| - 1);
    }
  }

  /**
   * The value an unsigned extraction stores for a sign and the magnitude of
   * its digits: `SIZE_MAX` when the magnitude does not fit, and for a minus
   * sign the magnitude negated modulo 2^64.
   */
  function SignedCount(negative: bool, m: nat): (n: nat)
    ensures n <= SizeMax
  {
    if m > SizeMax then SizeMax else if negative then (SizeMax + 1 - m) % (SizeMax + 1) else m
  }

  /**
   * A count without a minus sign that fits is its magnitude; one that does
   * not fit saturates; a negative one wraps round, so that adding the
   * magnitude back gives 2^64 (or 0 for "-0").
   */
  lemma SignedCountSpec(negative: bool, m: nat)
    ensures !negative && m <= SizeMax ==> SignedCount(negative, m) == m
    ensures m > SizeMax ==> SignedCount(negative, m) == SizeMax
    ensures negative && 0 < m <= SizeMax ==> SignedCount(negative, m) + m == SizeMax + 1
    ensures negative && m == 1 ==> SignedCount(negative, m) == SizeMax
    ensures negative && m == 0 ==> SignedCount(negative, m) == 0
  {
  }

  /**
   * `is >> n` for a `size_t`: the sentry skips whitespace and fails at the
   * end of the input or on a stream that has already failed; then an
   * optional sign and the decimal digits are taken. No digit, or a magnitude
   * above `SIZE_MAX`, sets the failbit. This is where the stream is left.
   */
  function ReadCountRest(s: Stream): (r: Stream)
    ensures r.text == s.text
  {
    var s1 := SkipWs(s);
    if !s1.good || s1.pos >= |s1.text| then s1.(good := false)
    else
      var b := SignEnd(s1.text, s1.pos);
      var e := DigitsEnd(s1.text, b);
      if e == b then s1.(pos := b, good := false)
      else s1.(pos := e, good := Magnitude(s1.text, b) <= SizeMax)
  }

  /**
   * What `is >> n` stores in `n`: nothing when the sentry fails, 0 when no
   * digit follows, and otherwise the signed count of the digits taken.
   */
  function ReadCountStored(s: Stream): (r: Option<nat>)
    ensures r.Some? ==> r.value <= SizeMax
    ensures r.None? ==> !ReadCountRest(s).good
  {
    var s1 := SkipWs(s);
    if !s1.good || s1.pos >= |s1.text| then None
    else
      var b := SignEnd(s1.text, s1.pos);
      if DigitsEnd(s1.text, b) == b then Some(0)
      else Some(SignedCount(s1.text[s1.pos] == '-', Magnitude(s1.text, b)))
  }

  /**
   * The count `read_rl` resizes to: what `is >> n` stored, and 0 when it
   * stored nothing, as with `n_entries` initialised to 0.
   */
  function ReadCountValue(s: Stream): (n: nat)
    ensures n <= SizeMax
  {
    match ReadCountStored(s)
    case None => 0
    case Some(v) => v
  }

  /**
   * A count that fails to read leaves no digits behind in a good stream:
   * the stream fails exactly when the sentry fails, no digit follows, or
   * the magnitude overflows, and what is stored is then nothing, 0 or
   * `SIZE_MAX`.
   */
  lemma ReadCountFailures(s: Stream)
    ensures !ReadCountRest(s).good ==>
      ReadCountStored(s) == None || ReadCountStored(s) == Some(0) || ReadCountStored(s) == Some(SizeMax)
    ensures ReadCountStored(s) == None ==> ReadCountValue(s) == 0
  {
  }

  /** A run of non-whitespace from `p` to a whitespace character or the end ends where that run ends. */
  lemma {:induction false} TokenEndAt(t: string, p: nat, e: nat)
    requires p <= e <= |t| && (forall k :: p <= k < e ==> !IsSpace(t[k])) && (e == |t| || IsSpace(t[e]))
    ensures TokenEnd(t, p) == e
    decreases e - p
  {
    if p < e {
      TokenEndAt(t, p + 1, e);
    }
  }

  /** A run of digits from `p` to a non-digit or the end ends where that run ends. */
  lemma {:induction false} DigitsEndAt(t: string, p: nat, e: nat)
    requires p <= e <= |t| && (forall k :: p <= k < e ==> IsDigit(t[k])) && (e == |t| || !IsDigit(t[e]))
    ensures DigitsEnd(t, p) == e
    decreases e - p
  {
    if p < e {
      DigitsEndAt(t, p + 1, e);
    }
  }

  /** A token preceded by whitespace and followed by whitespace is read up to its end. */
  lemma ReadTokenAt(t: string, p: nat, q: nat, w: string)
    requires p <= q && IsToken(w) && TextAt(t, q, w) && q + |w| < |t| && IsSpace(t[q + |w|])
    requires forall k :: p <= k < q ==> IsSpace(t[k])
    ensures ReadTokenRest(Stream(t, p, true)) == Stream(t, q + |w|, true)
  {
    assert t[q] == w[0];
    SkipWsAt(t, p, q);
    forall k | q <= k < q + |w|
      ensures !IsSpace(t[k])
    {
      assert t[k] == w[k - q];
    }
    TokenEndAt(t, q, q + |w|);
  }

  /** A token preceded by whitespace and followed by whitespace is read as itself. */
  lemma ReadWordAt(t: string, p: nat, q: nat, w: string)
    requires p <= q && IsToken(w) && TextAt(t, q, w) && q + |w| < |t| && IsSpace(t[q + |w|])
    requires forall k :: p <= k < q ==> IsSpace(t[k])
    ensures ReadTokenWord(Stream(t, p, true)) == w
  {
    assert t[q] == w[0];
    SkipWsAt(t, p, q);
    forall k | q <= k < q + |w|
      ensures !IsSpace(t[k])
    {
      assert t[k] == w[k - q];
    }
    TokenEndAt(t, q, q + |w|);
  }

  /** A run of digits found at `q` and ended by a non-digit or the end has that run's value. */
  lemma MagnitudeAt(t: string, q: nat, d: string)
    requires |d| > 0 && AllDigits(d) && TextAt(t, q, d)
    requires q + |d| == |t| || !IsDigit(t[q + |d|])
    ensures DigitsEnd(t, q) == q + |d| && Magnitude(t, q) == DigitsValue(d)
  {
    forall k | q <= k < q + |d|
      ensures IsDigit(t[k])
    {
      assert t[k] == d[k - q];
    }
    DigitsEndAt(t, q, q + |d|);
    DigitsValueInAt(t, q, d);
  }

  /**
   * A count written after whitespace as an optional sign and a run of digits,
   * ended by a non-digit or the end, is read up to the end of its digits; the
   * stream stays good exactly when the magnitude fits, and the signed count
   * is stored.
   */
  lemma ReadSignedCountAt(t: string, p: nat, q: nat, sign: string, d: string)
    requires sign == "" || sign == "+" || sign == "-"
    requires p <= q && |d| > 0 && AllDigits(d) && TextAt(t, q, sign + d)
    requires q + |sign| + |d| == |t| || !IsDigit(t[q + |sign| + |d|])
    requires forall k :: p <= k < q ==> IsSpace(t[k])
    ensures ReadCountRest(Stream(t, p, true)) == Stream(t, q + |sign| + |d|, DigitsValue(d) <= SizeMax)
    ensures ReadCountStored(Stream(t, p, true)) == Some(SignedCount(sign == "-", DigitsValue(d)))
  {
    SignAt(t, q, sign, d);
    SkipWsAt(t, p, q);
    SkipWsAt(t, q, q);
    CountAt(t, q, sign, d);
    ReadCountAfterSkip(Stream(t, p, true), Stream(t, q, true));
  }

  /** A count written as an optional sign and a run of digits, read from its first character. */
  lemma CountAt(t: string, q: nat, sign: string, d: string)
    requires sign == "" || sign == "+" || sign == "-"
    requires |d| > 0 && AllDigits(d) && TextAt(t, q, sign + d)
    requires q + |sign| + |d| == |t| || !IsDigit(t[q + |sign| + |d|])
    ensures ReadCountRest(Stream(t, q, true)) == Stream(t, q + |sign| + |d|, DigitsValue(d) <= SizeMax)
    ensures ReadCountStored(Stream(t, q, true)) == Some(SignedCount(sign == "-", DigitsValue(d)))
  {
    SignAt(t, q, sign, d);
    CountAfterSign(t, q, q + |sign|, sign == "-", d);
  }

  /** A count whose sign, if any, ends at `b`, where a run of digits starts. */
  lemma CountAfterSign(t: string, q: nat, b: nat, negative: bool, d: string)
    requires q < |t| && !IsSpace(t[q]) && SignEnd(t, q) == b && (t[q] == '-') == negative
    requires |d| > 0 && AllDigits(d) && TextAt(t, b, d)
    requires b + |d| == |t| || !IsDigit(t[b + |d|])
    ensures ReadCountRest(Stream(t, q, true)) == Stream(t, b + |d|, DigitsValue(d) <= SizeMax)
    ensures ReadCountStored(Stream(t, q, true)) == Some(SignedCount(negative, DigitsValue(d)))
  {
    SkipWsAt(t, q, q);
    MagnitudeAt(t, b, d);
    ReadCountUnfold(Stream(t, q, true), q, b, b + |d|, DigitsValue(d), negative);
  }

  /** The count read depends only on where skipping whitespace stops. */
  lemma ReadCountAfterSkip(s: Stream, s': Stream)
    requires SkipWs(s) == SkipWs(s')
    ensures ReadCountRest(s) == ReadCountRest(s') && ReadCountStored(s) == ReadCountStored(s')
  {
  }

  /** Reading a count whose first character, after the whitespace skipped, starts a signed run of digits. */
  lemma ReadCountUnfold(s: Stream, q: nat, b: nat, e: nat, m: nat, negative: bool)
    requires SkipWs(s) == Stream(s.text, q, true) && q < |s.text| && (s.text[q] == '-') == negative
    requires SignEnd(s.text, q) == b && DigitsEnd(s.text, b) == e && e != b && Magnitude(s.text, b) == m
    ensures ReadCountRest(s) == Stream(s.text, e, m <= SizeMax)
    ensures ReadCountStored(s) == Some(SignedCount(negative, m))
  {
  }

  /** A sign and digits found at `q`: the first character is not whitespace, the sign ends where the digits start, and the digits follow. */
  lemma SignAt(t: string, q: nat, sign: string, d: string)
    requires sign == "" || sign == "+" || sign == "-"
    requires |d| > 0 && AllDigits(d) && TextAt(t, q, sign + d)
    ensures q < |t| && !IsSpace(t[q]) && SignEnd(t, q) == q + |sign| && TextAt(t, q + |sign|, d)
    ensures (t[q] == '-') == (sign == "-")
  {
    TextAtConcat(t, q, sign, d);
    TextAtIndex(t, q, sign + d, 0);
    assert (sign + d)[0] == if sign == "" then d[0] else sign[0];
  }

  /** A run of decimal digits that fits a `size_t`, after whitespace and before a space, is read up to its end. */
  lemma ReadCountAt(t: string, p: nat, q: nat, d: string)
    requires p <= q && |d| > 0 && AllDigits(d) && TextAt(t, q, d) && q + |d| < |t| && t[q + |d|] == ' '
    requires DigitsValue(d) <= SizeMax
    requires forall k :: p <= k < q ==> IsSpace(t[k])
    ensures ReadCountRest(Stream(t, p, true)) == Stream(t, q + |d|, true)
  {
    assert "" + d == d;
    ReadSignedCountAt(t, p, q, "", d);
  }

  /** A run of decimal digits that fits a `size_t`, after whitespace and before a space, is read as its value. */
  lemma ReadCountValueAt(t: string, p: nat, q: nat, d: string)
    requires p <= q && |d| > 0 && AllDigits(d) && TextAt(t, q, d) && q + |d| < |t| && t[q + |d|] == ' '
    requires DigitsValue(d) <= SizeMax
    requires forall k :: p <= k < q ==> IsSpace(t[k])
    ensures ReadCountValue(Stream(t, p, true)) == DigitsValue(d)
  {
    assert "" + d == d;
    ReadSignedCountAt(t, p, q, "", d);
  }

  /** A token right after a whitespace character, and followed by whitespace, is read up to its end. */
  lemma ReadTokenAfterSpace(t: string, q: nat, w: string)
    requires 0 < q <= |t| && IsSpace(t[q - 1]) && IsToken(w) && TextAt(t, q, w) && q + |w| < |t| && IsSpace(t[q + |w|])
    ensures ReadTokenRest(Stream(t, q - 1, true)) == Stream(t, q + |w|, true)
  {
    assert forall k :: q - 1 <= k < q ==> IsSpace(t[k]);
    ReadTokenAt(t, q - 1, q, w);
  }

  /** A count that fits a `size_t`, right after a whitespace character and before a space, is read up to its end as its value. */
  lemma ReadCountAfterSpace(t: string, q: nat, d: string)
    requires 0 < q <= |t| && IsSpace(t[q - 1]) && |d| > 0 && AllDigits(d) && TextAt(t, q, d) && q + |d| < |t| && t[q + |d|] == ' '
    requires DigitsValue(d) <= SizeMax
    ensures ReadCountRest(Stream(t, q - 1, true)) == Stream(t, q + |d|, true)
    ensures ReadCountValue(Stream(t, q - 1, true)) == DigitsValue(d)
  {
    assert forall k :: q - 1 <= k < q ==> IsSpace(t[k]);
    ReadCountAt(t, q - 1, q, d);
    ReadCountValueAt(t, q - 1, q, d);
  }

  // ---------------------------------------------------------------------
  // The list

  /** Models `resize`: the first `n` entries kept, default entries added at the end when growing. */
  function Resized(k: ListKind, rl: seq<RlEntry>, n: nat): (r: seq<RlEntry>)
    ensures |r| == n
  {
    if n <= |rl| then rl[..n] else rl + seq(n - |rl|, _ => DefaultEntry(k))
  }

  /** Resizing keeps the entries that fit, adds only default entries, and keeps every entry of the list's type. */
  lemma ResizedSpec(k: ListKind, rl: seq<RlEntry>, n: nat)
    ensures forall i :: 0 <= i < n && i < |rl| ==> Resized(k, rl, n)[i] == rl[i]
    ensures forall i :: |rl| <= i < n ==> Resized(k, rl, n)[i] == DefaultEntry(k)
    ensures (forall i :: 0 <= i < |rl| ==> EntryFits(k, rl[i])) ==> forall i :: 0 <= i < n ==> EntryFits(k, Resized(k, rl, n)[i])
  {
  }

  /** Entries `i` onwards read in index order, each in place over the old entry. */
  function ReadEntries(rl: seq<RlEntry>, s: Stream, i: nat): (r: (seq<RlEntry>, Stream))
    requires i <= |rl|
    ensures |r.0| == |rl|
    decreases |rl| - i
  {
    if i == |rl| then (rl, s)
    else
      var e := ReadEntrySpec(rl[i], s);
      ReadEntries(rl[i := e.entry], e.rest, i + 1)
  }

  /**
   * How `read_rl` ends: with the entries read and the stream after them, or
   * with the program terminated, because `resize` threw inside a `noexcept`
   * function.
   */
  datatype RlRead = Loaded(rl: seq<RlEntry>, rest: Stream) | Terminated

  /**
   * `read_rl` on a list of kind `k` holding `rl`: the name, the count and
   * the word "entries" are read; a name other than the list's own only
   * produces a warning; the list is resized to the count and that many
   * entries are read in order, a failed entry read being ignored. A count
   * no list can hold ends the program.
   */
  function ReadRlSpec(k: ListKind, rl: seq<RlEntry>, s: Stream): (r: RlRead)
    ensures r.Terminated? <==> ReadCountValue(ReadTokenRest(s)) >= ResizeLimit
    ensures r.Loaded? ==> |r.rl| == ReadCountValue(ReadTokenRest(s))
  {
    var count := ReadCountValue(ReadTokenRest(s));
    if count >= ResizeLimit then Terminated
    else
      var read := ReadEntries(Resized(k, rl, count), ReadTokenRest(ReadCountRest(ReadTokenRest(s))), 0);
      Loaded(read.0, read.1)
  }

  /** The text of entries `rl`, one printed entry after another. */
  function EntriesText(rl: seq<RlEntry>): string
  {
    if rl == [] then [] else PrintEntry(rl[0]) + EntriesText(rl[1..])
  }

  /** The header line `print_rl` writes. */
  function Header(k: ListKind, n: nat): string
  {
    ListName(k) + " " + NatToString(n) + " " + "entries" + "\n"
  }

  /** Models `print_rl`: the header line, then every entry in order. */
  function PrintRlText(k: ListKind, rl: seq<RlEntry>): string
  {
    Header(k, |rl|) + EntriesText(rl)
  }

  /** Printing entries one list after another prints the lists one after another. */
  lemma {:induction false} EntriesTextAppend(a: seq<RlEntry>, b: seq<RlEntry>)
    ensures EntriesText(a + b) == EntriesText(a) + EntriesText(b)
  {
    if a == [] {
      assert a + b == b;
    } else {
      assert (a + b)[0] == a[0] && (a + b)[1..] == a[1..] + b;
      EntriesTextAppend(a[1..], b);
    }
  }

  /** The printed entries from `j` on are entry `j`'s line, then the lines of those after it. */
  lemma EntriesTextFrom(rl: seq<RlEntry>, j: nat)
    requires j < |rl|
    ensures EntriesText(rl[j..]) == PrintEntry(rl[j]) + EntriesText(rl[j + 1..])
  {
    assert rl[j..][0] == rl[j] && rl[j..][1..] == rl[j + 1..];
  }

  /** The printed entries up to and including `j` end with entry `j`'s line. */
  lemma EntriesTextUpTo(rl: seq<RlEntry>, j: nat)
    requires j < |rl|
    ensures EntriesText(rl[..j + 1]) == EntriesText(rl[..j]) + PrintEntry(rl[j])
  {
    assert rl[..j + 1] == rl[..j] + [rl[j]];
    EntriesTextAppend(rl[..j], [rl[j]]);
    assert [rl[j]][1..] == [];
  }

  /** The printed entries split around entry `j`'s line. */
  lemma EntriesTextSplit(rl: seq<RlEntry>, j: nat)
    requires j < |rl|
    ensures EntriesText(rl) == EntriesText(rl[..j]) + (PrintEntry(rl[j]) + EntriesText(rl[j + 1..]))
    ensures EntriesText(rl[..j + 1]) == EntriesText(rl[..j]) + PrintEntry(rl[j])
  {
    assert rl == rl[..j] + rl[j..];
    EntriesTextAppend(rl[..j], rl[j..]);
    EntriesTextFrom(rl, j);
    EntriesTextUpTo(rl, j);
  }

  /**
   * A header whose name is followed by a space and a count written with an
   * optional sign, ended by a non-digit, stores the signed count of its digits.
   */
  lemma ReadSignedHeaderCount(t: string, name: string, sign: string, d: string)
    requires sign == "" || sign == "+" || sign == "-"
    requires IsToken(name) && TextAt(t, 0, name) && |name| < |t| && t[|name|] == ' '
    requires |d| > 0 && AllDigits(d) && TextAt(t, |name| + 1, sign + d)
    requires |name| + 1 + |sign| + |d| == |t| || !IsDigit(t[|name| + 1 + |sign| + |d|])
    ensures ReadCountStored(ReadTokenRest(Stream(t, 0, true))) == Some(SignedCount(sign == "-", DigitsValue(d)))
    ensures ReadCountRest(ReadTokenRest(Stream(t, 0, true))).good <==> DigitsValue(d) <= SizeMax
  {
    SignAt(t, |name| + 1, sign, d);
    ReadTokenAt(t, 0, 0, name);
    assert forall k :: |name| <= k < |name| + 1 ==> IsSpace(t[k]);
    ReadSignedCountAt(t, |name|, |name| + 1, sign, d);
  }

  /** "sigRL +2 entries": a count with a plus sign is read as its digits. */
  lemma PlusSignCount(k: ListKind, before: seq<RlEntry>, after: string)
    ensures ReadCountValue(ReadTokenRest(Stream("sigRL +2 entries\n" + after, 0, true))) == 2
    ensures |ReadRlSpec(k, before, Stream("sigRL +2 entries\n" + after, 0, true)).rl| == 2
  {
    var t := "sigRL +2 entries\n" + after;
    ListNamesDistinct();
    assert IsToken(ListName(SigRl));
    assert TextAt(t, 0, "sigRL") by {
      assert forall i :: 0 <= i < 5 ==> t[i] == "sigRL"[i];
    }
    assert TextAt(t, 6, "+" + "2") by {
      assert "+" + "2" == "+2";
      assert t[6] == '+' && t[7] == '2';
    }
    assert DigitsValue("2") == 2 by {
      assert "2"[..0] == [];
    }
    ReadSignedHeaderCount(t, "sigRL", "+", "2");
  }

  /** "sigRL -1 entries": the count stored is `SIZE_MAX`, and `read_rl` ends the program. */
  lemma MinusOneTerminates(k: ListKind, before: seq<RlEntry>, after: string)
    ensures ReadCountValue(ReadTokenRest(Stream("sigRL -1 entries\n" + after, 0, true))) == SizeMax
    ensures ReadRlSpec(k, before, Stream("sigRL -1 entries\n" + after, 0, true)) == Terminated
  {
    MinusOneCount("sigRL -1 entries\n" + after);
  }

  /** A text that starts "sigRL -1" followed by a non-digit stores the count `SIZE_MAX`. */
  lemma MinusOneCount(t: string)
    requires |t| > 8 && t[..8] == "sigRL -1" && !IsDigit(t[8])
    ensures ReadCountValue(ReadTokenRest(Stream(t, 0, true))) == SizeMax
  {
    ListNamesDistinct();
    assert IsToken(ListName(SigRl));
    assert TextAt(t, 0, "sigRL") by {
      assert forall i :: 0 <= i < 5 ==> t[i] == t[..8][i];
    }
    assert TextAt(t, 6, "-" + "1") by {
      assert "-" + "1" == "-1";
      assert t[6] == t[..8][6] && t[7] == t[..8][7];
    }
    assert t[5] == t[..8][5];
    assert DigitsValue("1") == 1 by {
      assert "1"[..0] == [];
    }
    ReadSignedHeaderCount(t, "sigRL", "-", "1");
  }

  /**
   * A count whose digits exceed `SIZE_MAX` saturates to `SIZE_MAX` and fails
   * the stream, and `read_rl` ends the program.
   */
  lemma OverflowTerminates(k: ListKind, before: seq<RlEntry>, t: string, name: string, d: string)
    requires IsToken(name) && TextAt(t, 0, name) && |name| < |t| && t[|name|] == ' '
    requires |d| > 0 && AllDigits(d) && TextAt(t, |name| + 1, d) && DigitsValue(d) > SizeMax
    requires |name| + 1 + |d| == |t| || !IsDigit(t[|name| + 1 + |d|])
    ensures ReadCountValue(ReadTokenRest(Stream(t, 0, true))) == SizeMax
    ensures !ReadCountRest(ReadTokenRest(Stream(t, 0, true))).good
    ensures ReadRlSpec(k, before, Stream(t, 0, true)) == Terminated
  {
    assert "" + d == d;
    ReadSignedHeaderCount(t, name, "", d);
  }

  /**
   * "sigRL" followed by the end of the line and of the input, or no input at
   * all: the sentry of `is >> n_entries` fails and nothing is stored, so the
   * source goes on to resize to an uninitialised `n_entries`.
   */
  lemma CountUnsetOnBareName()
    ensures ReadCountStored(ReadTokenRest(Stream("sigRL\n", 0, true))) == None
    ensures ReadCountStored(ReadTokenRest(Stream("", 0, true))) == None
  {
    var t := "sigRL\n";
    ListNamesDistinct();
    assert IsToken(ListName(SigRl));
    assert TextAt(t, 0, "sigRL") by {
      assert forall i :: 0 <= i < 5 ==> t[i] == "sigRL"[i];
    }
    ReadTokenAt(t, 0, 0, "sigRL");
    assert SkipWs(Stream(t, 5, true)) == Stream(t, 6, true) by {
      SkipWsAt(t, 5, 6);
    }
  }

  /**
   * With `n_entries` initialised to 0, a header whose count is missing reads
   * as an empty list: nothing is read after the header.
   */
  lemma ReadRlNoCount(k: ListKind, before: seq<RlEntry>, s: Stream)
    requires ReadCountStored(ReadTokenRest(s)) == None
    ensures ReadRlSpec(k, before, s) == Loaded([], ReadTokenRest(ReadCountRest(ReadTokenRest(s))))
    ensures !ReadCountRest(ReadTokenRest(s)).good
  {
    assert Resized(k, before, 0) == [];
  }

  /** Text found at `p` made of three parts has its middle part after the first. */
  lemma TextAtMiddle(t: string, p: nat, a: string, b: string, c: string)
    requires TextAt(t, p, a + (b + c))
    ensures TextAt(t, p + |a|, b)
  {
    TextAtConcat(t, p, a, b + c);
    TextAtConcat(t, p + |a|, b, c);
  }

  /** Where the printed line of entry `j` starts, in entries printed from `q` on. */
  function LineStart(q: nat, rl: seq<RlEntry>, j: nat): nat
    requires j <= |rl|
  {
    q + |EntriesText(rl[..j])|
  }

  /** The printed entries, found at `q`, hold entry `j`'s line at its start, and the next line starts after it. */
  lemma LineAt(t: string, q: nat, rl: seq<RlEntry>, j: nat)
    requires j < |rl| && TextAt(t, q, EntriesText(rl))
    ensures TextAt(t, LineStart(q, rl, j), PrintEntry(rl[j]))
    ensures LineStart(q, rl, j + 1) == LineStart(q, rl, j) + |PrintEntry(rl[j])|
  {
    EntriesTextSplit(rl, j);
    TextAtMiddle(t, q, EntriesText(rl[..j]), PrintEntry(rl[j]), EntriesText(rl[j + 1..]));
  }

  /** Reading entries from `i` on is reading entry `i`, then those after it from where it stopped. */
  lemma ReadEntriesUnfold(cur: seq<RlEntry>, s: Stream, i: nat)
    requires i < |cur|
    ensures var e := ReadEntrySpec(cur[i], s);
      ReadEntries(cur, s, i) == ReadEntries(cur[i := e.entry], e.rest, i + 1)
  {
  }

  /** Where reading entry `j` starts: at `p` for the first, where the line before ends for the others. */
  function LinePos(p: nat, q: nat, rl: seq<RlEntry>, j: nat): nat
    requires j <= |rl|
  {
    if j == 0 then p else LineStart(q, rl, j)
  }

  /**
   * The line of entry `j`, read from where the line before it ends (from `p`,
   * after whitespace, for the first), gives entry `j` and stops where the next
   * line starts.
   */
  lemma ReadLine(e0: RlEntry, rl: seq<RlEntry>, t: string, p: nat, q: nat, j: nat)
    requires j < |rl| && e0.Pair? == rl[j].Pair?
    requires p <= q && TextAt(t, q, EntriesText(rl))
    requires forall k :: p <= k < q ==> IsSpace(t[k])
    ensures ReadEntrySpec(e0, Stream(t, LinePos(p, q, rl, j), true)) ==
            EntryRead(true, rl[j], Stream(t, LinePos(p, q, rl, j + 1), true))
  {
    LineAt(t, q, rl, j);
    if j == 0 {
      assert LineStart(q, rl, 0) == q;
      ReadEntryRoundTrip(e0, rl[j], t, p, q);
    } else {
      var a := LineStart(q, rl, j);
      ReadEntryRoundTrip(e0, rl[j], t, a, a);
    }
  }

  /** Setting entry `i` to its value in `rl` extends the prefix the two lists share. */
  lemma PrefixGrows(cur: seq<RlEntry>, rl: seq<RlEntry>, i: nat)
    requires i < |cur| == |rl| && cur[..i] == rl[..i]
    ensures cur[i := rl[i]][..i + 1] == rl[..i + 1]
  {
    assert forall k :: 0 <= k < i ==> cur[k] == cur[..i][k];
  }

  /** The type of each entry, in order: whether it is a pair. */
  function Kinds(rl: seq<RlEntry>): (r: seq<bool>)
    ensures |r| == |rl|
  {
    if rl == [] then [] else [rl[0].Pair?] + Kinds(rl[1..])
  }

  lemma {:induction false} KindsAt(rl: seq<RlEntry>, j: nat)
    requires j < |rl|
    ensures Kinds(rl)[j] == rl[j].Pair?
  {
    if j > 0 {
      KindsAt(rl[1..], j - 1);
    }
  }

  /** Two lists have the same kinds exactly when their entries agree in type one by one. */
  lemma SameKinds(a: seq<RlEntry>, b: seq<RlEntry>)
    requires |a| == |b|
    ensures Kinds(a) == Kinds(b) <==> forall j :: 0 <= j < |a| ==> a[j].Pair? == b[j].Pair?
  {
    forall j | 0 <= j < |a|
      ensures Kinds(a)[j] == a[j].Pair? && Kinds(b)[j] == b[j].Pair?
    {
      KindsAt(a, j);
      KindsAt(b, j);
    }
  }

  /** Replacing an entry by one of the same type keeps the kinds. */
  lemma KindsUpdate(rl: seq<RlEntry>, i: nat, e: RlEntry)
    requires i < |rl| && e.Pair? == rl[i].Pair?
    ensures Kinds(rl[i := e]) == Kinds(rl)
  {
    SameKinds(rl[i := e], rl);
  }

  /**
   * Reading the printed entries from entry `i` on, each over an entry of the
   * same type and with the entries before `i` already read, gives `rl`.
   */
  lemma {:induction false} ReadEntriesFrom(cur: seq<RlEntry>, rl: seq<RlEntry>, t: string, p: nat, q: nat, i: nat)
    requires |cur| == |rl| && i <= |rl| && cur[..i] == rl[..i]
    requires Kinds(cur) == Kinds(rl)
    requires p <= q && TextAt(t, q, EntriesText(rl))
    requires forall k :: p <= k < q ==> IsSpace(t[k])
    ensures ReadEntries(cur, Stream(t, LinePos(p, q, rl, i), true), i).0 == rl
    decreases |rl| - i
  {
    if i == |rl| {
      assert cur == cur[..i] == rl[..i] == rl;
    } else {
      KindsAt(cur, i);
      KindsAt(rl, i);
      ReadLine(cur[i], rl, t, p, q, i);
      ReadEntriesUnfold(cur, Stream(t, LinePos(p, q, rl, i), true), i);
      PrefixGrows(cur, rl, i);
      KindsUpdate(cur, i, rl[i]);
      ReadEntriesFrom(cur[i := rl[i]], rl, t, p, q, i + 1);
    }
  }

  /**
   * Reading entries back from their printed lines, after any whitespace,
   * gives the printed entries, into a list whose entries have the same types.
   */
  lemma ReadEntriesRoundTrip(cur: seq<RlEntry>, rl: seq<RlEntry>, t: string, p: nat, q: nat)
    requires |cur| == |rl| && Kinds(cur) == Kinds(rl)
    requires p <= q && TextAt(t, q, EntriesText(rl))
    requires forall k :: p <= k < q ==> IsSpace(t[k])
    ensures ReadEntries(cur, Stream(t, p, true), 0).0 == rl
  {
    ReadEntriesFrom(cur, rl, t, p, q, 0);
  }

  /**
   * A header laid out as a name token, a space, a run of digits, a space, a
   * word token and a newline is read up to the newline.
   */
  lemma ReadHeaderAt(t: string, name: string, d: string, w: string)
    requires IsToken(name) && IsToken(w) && |d| > 0 && AllDigits(d) && DigitsValue(d) <= SizeMax
    requires TextAt(t, 0, name) && TextAt(t, |name| + 1, d) && TextAt(t, |name| + |d| + 2, w)
    requires |name| + |d| + |w| + 2 < |t| && t[|name|] == ' ' && t[|name| + |d| + 1] == ' ' && t[|name| + |d| + |w| + 2] == '\n'
    ensures ReadTokenRest(ReadCountRest(ReadTokenRest(Stream(t, 0, true)))) == Stream(t, |name| + |d| + |w| + 2, true)
  {
    ReadHeaderCountAt(t, name, d);
    ReadTokenAfterSpace(t, |name| + |d| + 2, w);
  }

  /** Text found at `p` laid out as `a b c\n` (single spaces) has each part where the layout puts it. */
  lemma TextAtLine(t: string, p: nat, a: string, b: string, c: string)
    requires TextAt(t, p, a + " " + b + " " + c + "\n")
    ensures TextAt(t, p, a) && TextAt(t, p + |a| + 1, b) && TextAt(t, p + |a| + |b| + 2, c)
    ensures p + |a| + |b| + |c| + 2 < |t|
    ensures t[p + |a|] == ' ' && t[p + |a| + |b| + 1] == ' ' && t[p + |a| + |b| + |c| + 2] == '\n'
  {
    assert a + " " + b + " " + c + "\n" == a + (" " + (b + (" " + (c + "\n"))));
    TextAtConcat(t, p, a, " " + (b + (" " + (c + "\n"))));
    TextAtConcat(t, p + |a|, " ", b + (" " + (c + "\n")));
    TextAtConcat(t, p + |a| + 1, b, " " + (c + "\n"));
    TextAtConcat(t, p + |a| + |b| + 1, " ", c + "\n");
    TextAtConcat(t, p + |a| + |b| + 2, c, "\n");
    TextAtIndex(t, p + |a|, " ", 0);
    TextAtIndex(t, p + |a| + |b| + 1, " ", 0);
    TextAtIndex(t, p + |a| + |b| + |c| + 2, "\n", 0);
  }

  /** The header of a list of `n` entries is its name, the count in decimal and the word "entries", as one line. */
  lemma HeaderLayout(k: ListKind, n: nat, t: string)
    requires TextAt(t, 0, Header(k, n))
    ensures var name := ListName(k); var d := NatToString(n);
      TextAt(t, 0, name) && TextAt(t, |name| + 1, d) && TextAt(t, |name| + |d| + 2, "entries") &&
      |name| + |d| + 9 < |t| && t[|name|] == ' ' && t[|name| + |d| + 1] == ' ' && t[|name| + |d| + 9] == '\n' &&
      |Header(k, n)| == |name| + |d| + 10
  {
    var name := ListName(k);
    var d := NatToString(n);
    assert Header(k, n) == name + " " + d + " " + "entries" + "\n";
    assert |"entries"| == 7;
    TextAtLine(t, 0, name, d, "entries");
  }

  /** A header whose name is followed by a space and a count is read as that count. */
  lemma ReadHeaderCountAt(t: string, name: string, d: string)
    requires IsToken(name) && |d| > 0 && AllDigits(d) && DigitsValue(d) <= SizeMax
    requires TextAt(t, 0, name) && TextAt(t, |name| + 1, d)
    requires |name| + |d| + 1 < |t| && t[|name|] == ' ' && t[|name| + |d| + 1] == ' '
    ensures ReadCountValue(ReadTokenRest(Stream(t, 0, true))) == DigitsValue(d)
    ensures ReadCountRest(ReadTokenRest(Stream(t, 0, true))) == Stream(t, |name| + |d| + 1, true)
  {
    ReadTokenAt(t, 0, 0, name);
    ReadCountAfterSpace(t, |name| + 1, d);
  }

  /** The header of a list of `n` entries, at the start of a text, reads back as the count `n`, leaving the stream on its newline. */
  lemma ReadHeaderRoundTrip(k: ListKind, n: nat, t: string)
    requires TextAt(t, 0, Header(k, n)) && n <= SizeMax
    ensures ReadCountValue(ReadTokenRest(Stream(t, 0, true))) == n
    ensures ReadTokenRest(ReadCountRest(ReadTokenRest(Stream(t, 0, true)))) == Stream(t, |Header(k, n)| - 1, true)
  {
    var name := ListName(k);
    var d := NatToString(n);
    ListNamesDistinct();
    NatToStringRoundTrip(n);
    assert IsToken("entries");
    HeaderLayout(k, n, t);
    ReadHeaderAt(t, name, d, "entries");
    ReadHeaderCountAt(t, name, d);
  }

  /** The header line ends with its newline. */
  lemma HeaderEndsLine(k: ListKind, n: nat, t: string)
    requires TextAt(t, 0, Header(k, n))
    ensures |Header(k, n)| > 0 && t[|Header(k, n)| - 1] == '\n'
  {
    var h := Header(k, n);
    assert h[|h| - 1] == '\n';
    assert t[..|h|][|h| - 1] == h[|h| - 1];
  }

  /** The header's last character is its newline. */
  lemma HeaderLastNewline(k: ListKind, n: nat)
    ensures |Header(k, n)| > 0 && Header(k, n)[|Header(k, n)| - 1] == '\n'
  {
  }

  /** Resizing a list of kind `k` to the length of another gives entries of the same types as the other's. */
  lemma ResizedMatches(k: ListKind, before: seq<RlEntry>, rl: seq<RlEntry>)
    requires forall i :: 0 <= i < |before| ==> EntryFits(k, before[i])
    requires forall i :: 0 <= i < |rl| ==> EntryFits(k, rl[i])
    ensures Kinds(Resized(k, before, |rl|)) == Kinds(rl)
  {
    ResizedSpec(k, before, |rl|);
    SameKinds(Resized(k, before, |rl|), rl);
  }

  /** Reading a list is resizing it to the count in the header, then reading the entries from where the header ends. */
  lemma ReadRlSpecAfterHeader(k: ListKind, before: seq<RlEntry>, s: Stream, n: nat, s3: Stream)
    requires ReadCountValue(ReadTokenRest(s)) == n < ResizeLimit && ReadTokenRest(ReadCountRest(ReadTokenRest(s))) == s3
    ensures ReadRlSpec(k, before, s) == Loaded(ReadEntries(Resized(k, before, n), s3, 0).0, ReadEntries(Resized(k, before, n), s3, 0).1)
  {
  }

  /** Entries printed right after a whitespace character are read back from that character on. */
  lemma ReadEntriesAfterSpace(cur: seq<RlEntry>, rl: seq<RlEntry>, t: string, q: nat)
    requires |cur| == |rl| && Kinds(cur) == Kinds(rl)
    requires 0 < q <= |t| && IsSpace(t[q - 1]) && TextAt(t, q, EntriesText(rl))
    ensures ReadEntries(cur, Stream(t, q - 1, true), 0).0 == rl
  {
    assert forall k :: q - 1 <= k < q ==> IsSpace(t[k]);
    ReadEntriesRoundTrip(cur, rl, t, q - 1, q);
  }

  /**
   * Reading a list whose text starts with the header of `n` entries is
   * reading `n` entries from the header's closing newline on.
   */
  lemma ReadRlHeader(k: ListKind, before: seq<RlEntry>, n: nat, t: string)
    requires TextAt(t, 0, Header(k, n)) && n < ResizeLimit
    ensures 0 < |Header(k, n)| <= |t| && IsSpace(t[|Header(k, n)| - 1])
    ensures ReadRlSpec(k, before, Stream(t, 0, true)).Loaded?
    ensures ReadRlSpec(k, before, Stream(t, 0, true)).rl == ReadEntries(Resized(k, before, n), Stream(t, |Header(k, n)| - 1, true), 0).0
  {
    ReadHeaderRoundTrip(k, n, t);
    HeaderEndsLine(k, n, t);
    ReadRlSpecAfterHeader(k, before, Stream(t, 0, true), n, Stream(t, |Header(k, n)| - 1, true));
  }

  /**
   * `read_rl` inverts `print_rl`: whatever the list held before, reading
   * the printed text of a list of the same kind gives back its entries. A
   * list that exists has fewer than `ResizeLimit` entries.
   */
  lemma ReadRlRoundTrip(k: ListKind, before: seq<RlEntry>, rl: seq<RlEntry>, after: string)
    requires forall i :: 0 <= i < |before| ==> EntryFits(k, before[i])
    requires forall i :: 0 <= i < |rl| ==> EntryFits(k, rl[i])
    requires |rl| < ResizeLimit
    ensures ReadRlSpec(k, before, Stream(PrintRlText(k, rl) + after, 0, true)).Loaded?
    ensures ReadRlSpec(k, before, Stream(PrintRlText(k, rl) + after, 0, true)).rl == rl
  {
    PrintedHeaderRead(k, before, rl, after);
    PrintedEntriesRead(k, before, rl, after);
  }

  /** The entries of a printed list are read back from the header's closing newline on. */
  lemma PrintedEntriesRead(k: ListKind, before: seq<RlEntry>, rl: seq<RlEntry>, after: string)
    requires forall i :: 0 <= i < |before| ==> EntryFits(k, before[i])
    requires forall i :: 0 <= i < |rl| ==> EntryFits(k, rl[i])
    ensures var t := PrintRlText(k, rl) + after;
      ReadEntries(Resized(k, before, |rl|), Stream(t, |Header(k, |rl|)| - 1, true), 0).0 == rl
  {
    AppendAssoc(Header(k, |rl|), EntriesText(rl), after);
    ReadEntriesAfterHeader(k, before, rl, after);
  }

  /** Reading a printed list reads its header, then entries from the header's closing newline on. */
  lemma PrintedHeaderRead(k: ListKind, before: seq<RlEntry>, rl: seq<RlEntry>, after: string)
    requires |rl| < ResizeLimit
    ensures var t := PrintRlText(k, rl) + after;
      ReadRlSpec(k, before, Stream(t, 0, true)).Loaded? &&
      ReadRlSpec(k, before, Stream(t, 0, true)).rl == ReadEntries(Resized(k, before, |rl|), Stream(t, |Header(k, |rl|)| - 1, true), 0).0
  {
    AppendAssoc(Header(k, |rl|), EntriesText(rl), after);
    ReadRlHeaderPrefix(k, before, |rl|, EntriesText(rl) + after);
  }

  /** Concatenation is associative. */
  lemma AppendAssoc(a: string, b: string, c: string)
    ensures (a + b) + c == a + (b + c)
  {
  }

  /** Text made of three parts holds the first at the start and the second right after. */
  lemma TextAtFront(a: string, b: string, c: string)
    ensures TextAt(a + (b + c), 0, a) && TextAt(a + (b + c), |a|, b)
  {
    var t := a + (b + c);
    assert t[..|a|] == a;
    assert t[|a|..|a| + |b|] == b;
  }

  /** The entries printed after a header are read back from the header's closing newline on. */
  lemma ReadEntriesAfterHeader(k: ListKind, before: seq<RlEntry>, rl: seq<RlEntry>, after: string)
    requires forall i :: 0 <= i < |before| ==> EntryFits(k, before[i])
    requires forall i :: 0 <= i < |rl| ==> EntryFits(k, rl[i])
    ensures var t := Header(k, |rl|) + (EntriesText(rl) + after);
      0 < |Header(k, |rl|)| &&
      ReadEntries(Resized(k, before, |rl|), Stream(t, |Header(k, |rl|)| - 1, true), 0).0 == rl
  {
    ResizedMatches(k, before, rl);
    HeaderLastNewline(k, |rl|);
    ReadEntriesBehind(Resized(k, before, |rl|), rl, Header(k, |rl|), after);
  }

  /** Entries printed right after a line that ends in whitespace are read back from that character on. */
  lemma ReadEntriesBehind(cur: seq<RlEntry>, rl: seq<RlEntry>, h: string, after: string)
    requires |cur| == |rl| && Kinds(cur) == Kinds(rl)
    requires 0 < |h| && IsSpace(h[|h| - 1])
    ensures ReadEntries(cur, Stream(h + (EntriesText(rl) + after), |h| - 1, true), 0).0 == rl
  {
    var t := h + (EntriesText(rl) + after);
    TextAtFront(h, EntriesText(rl), after);
    assert t[|h| - 1] == h[|h| - 1];
    ReadEntriesAfterSpace(cur, rl, t, |h|);
  }

  /** `ReadRlHeader` for a text that is the header followed by anything. */
  lemma ReadRlHeaderPrefix(k: ListKind, before: seq<RlEntry>, n: nat, rest: string)
    requires n < ResizeLimit
    ensures var t := Header(k, n) + rest;
      ReadRlSpec(k, before, Stream(t, 0, true)).Loaded? &&
      ReadRlSpec(k, before, Stream(t, 0, true)).rl == ReadEntries(Resized(k, before, n), Stream(t, |Header(k, n)| - 1, true), 0).0
  {
    var h := Header(k, n);
    assert (h + rest)[..|h|] == h;
    ReadRlHeader(k, before, n, h + rest);
  }

  /** Models `Hb_epid_rl<T>`: a list of kind `kind` whose entries are held in `rl`. */
  class HbEpidRl {
    const kind: ListKind
    var rl: seq<RlEntry>

    /** Every entry is of the list's entry type. */
    predicate Valid()
      reads this
    {
      forall i :: 0 <= i < |rl| ==> EntryFits(kind, rl[i])
    }

    /** A new list is empty. */
    constructor (kind: ListKind)
      ensures this.kind == kind && rl == [] && Valid()
    {
      this.kind := kind;
      rl := [];
    }

    /** The copy constructor: the same kind and the same entries. */
    constructor Copy(other: HbEpidRl)
      ensures kind == other.kind && rl == other.rl
    {
      kind := other.kind;
      rl := other.rl;
    }

    function Size(): nat
      reads this
    {
      |rl|
    }

    /** The name written in the header and expected when reading. */
    function Name(): (r: string)
      ensures IsToken(r)
    {
      ListNamesDistinct();
      ListName(kind)
    }

    /** Models `add`: the entry goes at the end; earlier entries are unchanged. */
    method Add(entry: RlEntry)
      requires Valid() && EntryFits(kind, entry)
      modifies this
      ensures Valid() && rl == old(rl) + [entry] && Size() == old(Size()) + 1
    {
      rl := rl + [entry];
    }

    /** Models `clear`. */
    method Clear()
      modifies this
      ensures Valid() && rl == []
    {
      rl := [];
    }

    /** Models `resize`. */
    method Resize(n: nat)
      requires Valid()
      modifies this
      ensures Valid() && rl == Resized(kind, old(rl), n)
    {
      rl := Resized(kind, rl, n);
      ResizedSpec(kind, old(rl), n);
    }

    /**
     * Models `print_rl`. What it writes for a list that can exist, `read_rl`
     * reads back into an empty list of the same kind as the same entries.
     */
    function PrintRl(): (r: string)
      reads this
      ensures Valid() && |rl| < ResizeLimit ==>
        ReadRlSpec(kind, [], Stream(r, 0, true)).Loaded? && ReadRlSpec(kind, [], Stream(r, 0, true)).rl == rl
    {
      var r := PrintRlText(kind, rl);
      assert r + "" == r;
      if Valid() && |rl| < ResizeLimit then ReadRlRoundTrip(kind, [], rl, ""); r else r
    }

    /**
     * Models `read_rl`: header, resize to the count read, then the entries
     * in index order, each read over the entry already in place. When it
     * returns it reports success; `terminates` says that `resize` threw and
     * the program ended, with the list untouched.
     */
    method ReadRl(s: Stream) returns (terminates: bool, ok: bool, rest: Stream)
      requires Valid()
      modifies this
      ensures terminates <==> ReadRlSpec(kind, old(rl), s).Terminated?
      ensures terminates ==> rl == old(rl)
      ensures !terminates ==> ok && Valid() && Loaded(rl, rest) == ReadRlSpec(kind, old(rl), s)
    {
      var name := ReadTokenWord(s);
      var count := ReadCountValue(ReadTokenRest(s));
      // A name other than Name() only draws a warning.
      if count >= ResizeLimit {
        return true, false, s;
      }
      Resize(count);
      rest := ReadTokenRest(ReadCountRest(ReadTokenRest(s)));
      var i := 0;
      while i < count
        invariant 0 <= i <= count == |rl| && Valid()
        invariant Loaded(ReadEntries(rl, rest, i).0, ReadEntries(rl, rest, i).1) == ReadRlSpec(kind, old(rl), s)
      {
        var okEntry, entry, after := ReadEntry(rl[i], rest);
        rl := rl[i := entry];
        rest := after;
        i := i + 1;
      }
      terminates, ok := false, true;
    }
  }
}
