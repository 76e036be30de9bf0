/**
 * The variable-length-key message decoder of c/decode_message.c.
 *
 * A line holds a header of characters, a newline, then a bit string. The bit
 * string is a sequence of segments: three bits giving a key length `k`
 * (000 ends the message), then keys of `k` bits each, ended by the all-ones
 * key. A key `v` of length `k` names the header character at position
 * `KeyOffset(k) + v`, the keys of each length indexing the header after all
 * shorter keys. Carriage returns inside the bit string are skipped.
 *
 * The C line is a NUL-terminated string, so the character just past the
 * line is `'\0'`: the bit reader takes it as a 0 bit, and a key naming that
 * position emits it. Reading or looking up beyond the terminator has no
 * defined outcome in the C code; here both are reported as errors.
 */
module DecodeMessage {
  import opened Wrappers
  import opened Powers

  /** Bits giving a segment's key length. */
  const SegmentStartLen: nat := 3

  datatype DecodeError = Truncated | OutOfRange

  /** `get_number_of_keys`: the keys of length `k` other than the all-ones terminator. */
  function NumberOfKeys(k: nat): nat
  {
    Pow2(k) - 1
  }

  /** `get_key_offset`: the header position of the first key of length `k`. */
  function KeyOffset(k: nat): nat
  {
    if k <= 1 then 0 else KeyOffset(k - 1) + NumberOfKeys(k - 1)
  }

  /** The sum of `2^i - 1` for `i` from 1 to `k - 1`, in closed form. */
  lemma {:induction false} KeyOffsetClosed(k: nat)
    ensures KeyOffset(k) + k + 1 == Pow2(k)
  {
    if k > 1 {
      KeyOffsetClosed(k - 1);
    }
  }

  /** The header ranges of keys of different lengths do not overlap. */
  lemma {:induction false} KeyRangesDisjoint(k1: nat, k2: nat)
    requires k1 < k2
    ensures KeyOffset(k1) + NumberOfKeys(k1) <= KeyOffset(k2)
    decreases k2
  {
    if k1 + 1 < k2 {
      KeyRangesDisjoint(k1, k2 - 1);
    }
  }

  /** The loop of `get_key_offset`, summing the key counts of the shorter lengths. */
  method ComputeKeyOffset(k: nat) returns (r: nat)
    ensures r + k + 1 == Pow2(k)
  {
    r := 0;
    var i := 1;
    while i < k
      invariant i == 1 || 1 <= i <= k
      invariant r == KeyOffset(i)
    {
      r := r + NumberOfKeys(i);
      i := i + 1;
    }
    if k == 0 {
      assert KeyOffset(1) == KeyOffset(0) == 0;
    }
    KeyOffsetClosed(k);
  }

  /** `get_message_start`: the position just after the first newline, if there is one. */
  function MessageStart(line: seq<char>): (r: Option<nat>)
    ensures r.None? <==> '\n' !in line
    ensures r.Some? ==> 0 < r.value <= |line| && line[r.value - 1] == '\n' && '\n' !in line[..r.value - 1]
  {
    if line == [] then None
    else if line[0] == '\n' then Some(1)
    else match MessageStart(line[1..])
      case None => None
      case Some(p) =>
        assert line[..p] == [line[0]] + line[1..][..p - 1];
        Some(p + 1)
  }

  // ---------------------------------------------------------------------------
  // Bits
  // ---------------------------------------------------------------------------

  /** `'1'` is a one bit and every other character a zero bit. */
  function Bit(c: char): nat
  {
    if c == '1' then 1 else 0
  }

  /** The number whose bits, most significant first, are `bits` (each 0 or 1). */
  function ValueOf(bits: seq<nat>): nat
  {
    if bits == [] then 0 else 2 * ValueOf(bits[..|bits| - 1]) + bits[|bits| - 1]
  }

  /**
   * The loop of `parse_binary`: the next `len` characters other than
   * carriage returns, as bits, with the unread rest; nothing when the text
   * runs out first.
   */
  function ReadBits(s: seq<char>, len: nat): (r: Option<(seq<nat>, seq<char>)>)
    ensures r.Some? ==> |r.value.0| == len && forall i :: 0 <= i < len ==> r.value.0[i] <= 1
    ensures r.Some? ==> |r.value.1| + len <= |s|
  {
    if len == 0 then Some(([], s))
    else if s == [] then None
    else if s[0] == '\r' then ReadBits(s[1..], len)
    else match ReadBits(s[1..], len - 1)
      case None => None
      case Some((bits, rest)) => Some(([Bit(s[0])] + bits, rest))
  }

  /** `parse_binary`: read a `len`-bit number. */
  function ParseBinary(s: seq<char>, len: nat): (r: Option<(nat, seq<char>)>)
    ensures r.Some? ==> r.value.0 < Pow2(len)
    ensures r.Some? ==> |r.value.1| + len <= |s|
  {
    match ReadBits(s, len)
      case None => None
      case Some((bits, rest)) =>
        ValueBound(bits);
        Some((ValueOf(bits), rest))
  }

  lemma {:induction false} ValueBound(bits: seq<nat>)
    requires forall i :: 0 <= i < |bits| ==> bits[i] <= 1
    ensures ValueOf(bits) < Pow2(|bits|)
  {
    if bits != [] {
      ValueBound(bits[..|bits| - 1]);
    }
  }

  /** The `len`-character bit string of `v`, most significant bit first. */
  function Encode(v: nat, len: nat): (r: seq<char>)
    ensures |r| == len
    ensures forall i :: 0 <= i < |r| ==> r[i] == '0' || r[i] == '1'
  {
    if len == 0 then [] else Encode(v / 2, len - 1) + [if v % 2 == 1 then '1' else '0']
  }

  /** The bits a bit string spells. */
  function Bits(t: seq<char>): (r: seq<nat>)
    ensures |r| == |t|
    ensures forall i :: 0 <= i < |t| ==> r[i] == Bit(t[i])
  {
    if t == [] then [] else [Bit(t[0])] + Bits(t[1..])
  }

  lemma {:induction false} ReadBitString(t: seq<char>, rest: seq<char>)
    requires forall i :: 0 <= i < |t| ==> t[i] == '0' || t[i] == '1'
    ensures ReadBits(t + rest, |t|) == Some((Bits(t), rest))
  {
    if t == [] {
      assert t + rest == rest;
    } else {
      assert (t + rest)[1..] == t[1..] + rest;
      ReadBitString(t[1..], rest);
    }
  }

  lemma {:induction false} ValueOfEncode(v: nat, len: nat)
    requires v < Pow2(len)
    ensures ValueOf(Bits(Encode(v, len))) == v
  {
    if len > 0 {
      var hi := Encode(v / 2, len - 1);
      var b := Bits(Encode(v, len));
      assert b[..len - 1] == Bits(hi);
      ValueOfEncode(v / 2, len - 1);
    }
  }

  /** Reading back an encoded number gives the number and leaves the rest unread. */
  lemma ParseEncode(v: nat, len: nat, rest: seq<char>)
    requires v < Pow2(len)
    ensures ParseBinary(Encode(v, len) + rest, len) == Some((v, rest))
  {
    ReadBitString(Encode(v, len), rest);
    ValueOfEncode(v, len);
  }

  /** A carriage return before a number is skipped. */
  lemma ParseSkipsReturn(s: seq<char>, len: nat)
    requires len > 0
    ensures ParseBinary(['\r'] + s, len) == ParseBinary(s, len)
  {
    assert (['\r'] + s)[1..] == s;
  }

  // ---------------------------------------------------------------------------
  // Decoding
  // ---------------------------------------------------------------------------

  /** `c` emitted before whatever a decoding emits. */
  function Prepend(c: char, r: Result<(seq<char>, seq<char>), DecodeError>): (r': Result<(seq<char>, seq<char>), DecodeError>)
    ensures r.Err? ==> r' == r
    ensures r.Ok? ==> r'.Ok? && r'.value == ([c] + r.value.0, r.value.1)
  {
    if r.Err? then r else Ok(([c] + r.value.0, r.value.1))
  }

  /** A segment's characters emitted before whatever the later segments emit. */
  function Prefix(out: seq<char>, r: Result<seq<char>, DecodeError>): (r': Result<seq<char>, DecodeError>)
    ensures r.Err? ==> r' == r
    ensures r.Ok? ==> r' == Ok(out + r.value)
  {
    if r.Err? then r else Ok(out + r.value)
  }

  /**
   * The inner loop of `decode_message`: read keys of `len` bits, emitting the
   * line character each one names, until the all-ones key. Yields the
   * emitted characters and the unread rest.
   */
  function DecodeKeys(line: seq<char>, msg: seq<char>, len: nat): (r: Result<(seq<char>, seq<char>), DecodeError>)
    requires len >= 1
    ensures r.Ok? ==> |r.value.1| + len <= |msg|
    decreases |msg|
  {
    var p := ParseBinary(msg, len);
    if p.None? then Err(Truncated)
    else if p.value.0 >= NumberOfKeys(len) then Ok(([], p.value.1))
    else if KeyOffset(len) + p.value.0 >= |line| then Err(OutOfRange)
    else Prepend(line[KeyOffset(len) + p.value.0], DecodeKeys(line, p.value.1, len))
  }

  /**
   * The outer loop of `decode_message`: read a 3-bit key length, stop on 0,
   * otherwise decode that segment's keys and go on.
   */
  function DecodeSegments(line: seq<char>, msg: seq<char>): (r: Result<seq<char>, DecodeError>)
    decreases |msg|
  {
    var p := ParseBinary(msg, SegmentStartLen);
    if p.None? then Err(Truncated)
    else if p.value.0 == 0 then Ok([])
    else
      var k := DecodeKeys(line, p.value.1, p.value.0);
      if k.Err? then Err(k.error) else Prefix(k.value.0, DecodeSegments(line, k.value.1))
  }

  /** The NUL character that terminates a C string. */
  const Nul: char := 0 as char

  /** The line as C stores it: its characters, then the NUL terminator. */
  function CString(line: seq<char>): (r: seq<char>)
    ensures |r| == |line| + 1 && r[|line|] == Nul
  {
    line + [Nul]
  }

  /**
   * A whole line: the header is the line itself, terminator included, and
   * the bits start after its first newline and run on to the terminator.
   */
  function Decode(line: seq<char>): (r: Result<seq<char>, DecodeError>)
    ensures '\n' !in line ==> r == Err(Truncated)
  {
    match MessageStart(line)
    case None => Err(Truncated)
    case Some(start) => DecodeSegments(CString(line), CString(line)[start..])
  }

  // ---------------------------------------------------------------------------
  // Encoding, the inverse
  // ---------------------------------------------------------------------------

  /** A segment: a key length and its keys. */
  datatype Segment = Segment(len: nat, keys: seq<nat>)

  /** Every key fits its length and is not the terminator; the length fits 3 bits. */
  predicate WellFormed(g: Segment)
  {
    1 <= g.len < Pow2(SegmentStartLen) && forall i :: 0 <= i < |g.keys| ==> g.keys[i] < NumberOfKeys(g.len)
  }

  /** Every segment of the list is well formed. */
  predicate AllWellFormed(gs: seq<Segment>)
  {
    forall j :: 0 <= j < |gs| ==> WellFormed(gs[j])
  }

  function EncodeKeys(keys: seq<nat>, len: nat): seq<char>
  {
    if keys == [] then Encode(NumberOfKeys(len), len)
    else Encode(keys[0], len) + EncodeKeys(keys[1..], len)
  }

  /** The bit string of one segment: its key length, its keys, the all-ones key. */
  function EncodeSegment(g: Segment): seq<char>
  {
    Encode(g.len, SegmentStartLen) + EncodeKeys(g.keys, g.len)
  }

  /** The bit string of a list of segments, ended by a zero key length. */
  function EncodeSegments(gs: seq<Segment>): seq<char>
  {
    if gs == [] then Encode(0, SegmentStartLen)
    else EncodeSegment(gs[0]) + EncodeSegments(gs[1..])
  }

  /** The characters that the keys name in `line`. */
  function Lookups(line: seq<char>, keys: seq<nat>, len: nat): seq<char>
    requires forall i :: 0 <= i < |keys| ==> KeyOffset(len) + keys[i] < |line|
  {
    if keys == [] then [] else [line[KeyOffset(len) + keys[0]]] + Lookups(line, keys[1..], len)
  }

  /** Every key of every segment names a character of `line`. */
  predicate InRange(line: seq<char>, gs: seq<Segment>)
  {
    forall j, i :: 0 <= j < |gs| && 0 <= i < |gs[j].keys| ==> KeyOffset(gs[j].len) + gs[j].keys[i] < |line|
  }

  function Message(line: seq<char>, gs: seq<Segment>): seq<char>
    requires InRange(line, gs)
  {
    if gs == [] then []
    else
      assert forall i :: 0 <= i < |gs[0].keys| ==> KeyOffset(gs[0].len) + gs[0].keys[i] < |line|;
      Lookups(line, gs[0].keys, gs[0].len) + Message(line, gs[1..])
  }

  /** A segment ends at the all-ones key. */
  lemma EndsAtAllOnes(line: seq<char>, len: nat, rest: seq<char>)
    requires len >= 1
    ensures DecodeKeys(line, Encode(NumberOfKeys(len), len) + rest, len) == Ok(([], rest))
  {
    ParseEncode(NumberOfKeys(len), len, rest);
  }

  /** The message ends at a zero key length. */
  lemma EndsAtZeroLength(line: seq<char>, rest: seq<char>)
    ensures DecodeSegments(line, Encode(0, SegmentStartLen) + rest) == Ok([])
  {
    ParseEncode(0, SegmentStartLen, rest);
  }

  /** An ordinary key emits the character it names and decoding goes on after it. */
  lemma KeyStep(line: seq<char>, key: nat, len: nat, tail: seq<char>)
    requires 1 <= len && key < NumberOfKeys(len) && KeyOffset(len) + key < |line|
    ensures DecodeKeys(line, Encode(key, len) + tail, len) == Prepend(line[KeyOffset(len) + key], DecodeKeys(line, tail, len))
  {
    ParseEncode(key, len, tail);
    KeyRead(line, Encode(key, len) + tail, key, len, tail);
  }

  lemma KeyRead(line: seq<char>, m: seq<char>, key: nat, len: nat, tail: seq<char>)
    requires 1 <= len && key < NumberOfKeys(len) && KeyOffset(len) + key < |line|
    requires ParseBinary(m, len) == Some((key, tail))
    ensures DecodeKeys(line, m, len) == Prepend(line[KeyOffset(len) + key], DecodeKeys(line, tail, len))
  {
  }

  lemma {:induction false} DecodeEncodeKeys(line: seq<char>, keys: seq<nat>, len: nat, rest: seq<char>)
    requires 1 <= len
    requires forall i :: 0 <= i < |keys| ==> keys[i] < NumberOfKeys(len) && KeyOffset(len) + keys[i] < |line|
    ensures DecodeKeys(line, EncodeKeys(keys, len) + rest, len) == Ok((Lookups(line, keys, len), rest))
  {
    if keys == [] {
      EndsAtAllOnes(line, len, rest);
    } else {
      var tail := EncodeKeys(keys[1..], len) + rest;
      DecodeEncodeKeys(line, keys[1..], len, rest);
      assert EncodeKeys(keys, len) + rest == Encode(keys[0], len) + tail;
      KeyStep(line, keys[0], len, tail);
      assert Lookups(line, keys, len) == [line[KeyOffset(len) + keys[0]]] + Lookups(line, keys[1..], len);
    }
  }

  /** A well-formed segment emits the characters its keys name, and decoding goes on after it. */
  lemma SegmentStep(line: seq<char>, g: Segment, after: seq<char>)
    requires WellFormed(g)
    requires forall i :: 0 <= i < |g.keys| ==> KeyOffset(g.len) + g.keys[i] < |line|
    ensures DecodeSegments(line, EncodeSegment(g) + after) == Prefix(Lookups(line, g.keys, g.len), DecodeSegments(line, after))
  {
    var body := EncodeKeys(g.keys, g.len) + after;
    assert EncodeSegment(g) + after == Encode(g.len, SegmentStartLen) + body;
    ParseEncode(g.len, SegmentStartLen, body);
    DecodeEncodeKeys(line, g.keys, g.len, after);
    assert DecodeKeys(line, body, g.len) == Ok((Lookups(line, g.keys, g.len), after));
  }

  /** Decoding the encoding of well-formed segments yields the characters their keys name. */
  lemma {:induction false} DecodeEncode(line: seq<char>, gs: seq<Segment>, rest: seq<char>)
    requires AllWellFormed(gs)
    requires InRange(line, gs)
    ensures DecodeSegments(line, EncodeSegments(gs) + rest) == Ok(Message(line, gs))
  {
    if gs == [] {
      EndsAtZeroLength(line, rest);
    } else {
      var after := EncodeSegments(gs[1..]) + rest;
      assert EncodeSegments(gs) + rest == EncodeSegment(gs[0]) + after;
      assert WellFormed(gs[0]);
      assert forall i :: 0 <= i < |gs[0].keys| ==> KeyOffset(gs[0].len) + gs[0].keys[i] < |line|;
      SegmentStep(line, gs[0], after);
      RestInRange(line, gs);
      DecodeEncode(line, gs[1..], rest);
    }
  }

  lemma RestInRange(line: seq<char>, gs: seq<Segment>)
    requires InRange(line, gs) && gs != []
    ensures InRange(line, gs[1..])
  {
    forall j, i | 0 <= j < |gs[1..]| && 0 <= i < |gs[1..][j].keys|
      ensures KeyOffset(gs[1..][j].len) + gs[1..][j].keys[i] < |line|
    {
      assert gs[1..][j] == gs[j + 1];
    }
  }

  /** The bits start right after a newline-free header and its newline. */
  lemma {:induction false} StartAfterHeader(header: seq<char>, bits: seq<char>)
    requires '\n' !in header
    ensures MessageStart(header + ['\n'] + bits) == Some(|header| + 1)
  {
    var line := header + ['\n'] + bits;
    if header != [] {
      assert line[1..] == header[1..] + ['\n'] + bits;
      StartAfterHeader(header[1..], bits);
    }
  }

  /**
   * A line made of a header, a newline and an encoded message decodes to that
   * message. Keys may name any character of the C string, the terminator included.
   */
  lemma DecodeLine(header: seq<char>, gs: seq<Segment>)
    requires '\n' !in header
    requires AllWellFormed(gs)
    requires InRange(CString(header + ['\n'] + EncodeSegments(gs)), gs)
    ensures var line := header + ['\n'] + EncodeSegments(gs);
      Decode(line) == Ok(Message(CString(line), gs))
  {
    var bits := EncodeSegments(gs);
    var line := header + ['\n'] + bits;
    StartAfterHeader(header, bits);
    BitsToTerminator(header, bits);
    DecodeEncode(CString(line), gs, [Nul]);
  }

  lemma BitsToTerminator(header: seq<char>, bits: seq<char>)
    ensures CString(header + ['\n'] + bits)[|header| + 1..] == bits + [Nul]
  {
    assert CString(header + ['\n'] + bits) == header + ['\n'] + (bits + [Nul]);
  }

  /** A key naming the position just past the line emits the terminator. */
  lemma TerminatorLookup(line: seq<char>, key: nat, len: nat, tail: seq<char>)
    requires 1 <= len && key < NumberOfKeys(len) && KeyOffset(len) + key == |line|
    ensures DecodeKeys(CString(line), Encode(key, len) + tail, len) == Prepend(Nul, DecodeKeys(CString(line), tail, len))
  {
    KeyStep(CString(line), key, len, tail);
  }

  /** The terminator completes a key length as a 0 bit: the bits `00` end the message. */
  lemma TerminatorIsZeroBit()
    ensures Decode(['A', '\n', '0', '0']) == Ok([])
  {
    var line := ['A', '\n', '0', '0'];
    assert MessageStart(line[1..]) == Some(1);
    assert MessageStart(line) == Some(2);
    var bits := CString(line)[2..];
    assert bits == ['0', '0', Nul];
    assert ReadBits(bits[3..], 0) == Some(([], []));
    assert [Bit(Nul)] + [] == [0];
    assert ReadBits(bits[2..], 1) == Some(([0], []));
    assert [Bit('0')] + [0] == [0, 0];
    assert ReadBits(bits[1..], 2) == Some(([0, 0], []));
    assert [Bit('0')] + [0, 0] == [0, 0, 0];
    assert ReadBits(bits, 3) == Some(([0, 0, 0], []));
    assert ValueOf([0, 0, 0]) == 0 by {
      assert [0, 0, 0][..2] == [0, 0] && [0, 0][..1] == [0] && [0][..0] == [];
    }
  }

  /** Reading a bit beyond the terminator is an error: the bit `0` alone leaves the key length short. */
  lemma BeyondTerminatorTruncated()
    ensures Decode(['A', '\n', '0']) == Err(Truncated)
  {
    var line := ['A', '\n', '0'];
    assert MessageStart(line[1..]) == Some(1);
    assert MessageStart(line) == Some(2);
    var bits := CString(line)[2..];
    assert bits == ['0', Nul];
    assert ReadBits(bits[2..], 1) == None;
    assert ReadBits(bits[1..], 2) == None;
    assert ReadBits(bits, 3) == None;
  }
}
