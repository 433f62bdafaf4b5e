/** Wire format of the diagnostic terminal: the fixed 16-byte frame header
    (kind tag, left-aligned decimal length, ':' delimiter), the decimal
    rendering of the length that replaces `itoa`, and the slicing of a
    payload into transport-sized chunks that `<[u8]>::chunks` performs. */
module Wire {

  newtype byte = x: int | 0 <= x < 0x100

  datatype Option<T> = None | Some(value: T)

  /** `usize` on the RP2040 (a 32-bit Cortex-M0+). */
  const USIZE_MAX: nat := 0xFFFF_FFFF

  const HEADER_LEN: nat := 16
  /** Bytes 1..15 of the header hold the length digits. */
  const DIGIT_SPAN: nat := 14

  const ZERO_DIGIT: byte := 0x30  // '0'
  const COLON: byte := 0x3A       // ':'
  const NEWLINE: byte := 0x0A     // '\n'

  /** The kind of a frame: a character whose low byte is the header's tag. */
  datatype CommKind = CommKind(tag: char)

  const DEFMT_COMM: CommKind := CommKind('D')
  const STRING_COMM: CommKind := CommKind('S')

  datatype MessageHeader = MessageHeader(kind: CommKind, length: nat)

  /** `kind.0 as u8`: a Rust char-to-u8 cast keeps the low eight bits. */
  function TagByte(k: CommKind): (b: byte) {
    (k.tag as int % 0x100) as byte
  }

  predicate IsDigit(b: byte) {
    ZERO_DIGIT <= b <= ZERO_DIGIT + 9
  }

  predicate AllDigits(s: seq<byte>) {
    forall i :: 0 <= i < |s| ==> IsDigit(s[i])
  }

  /** A digit string as `itoa` writes it: non-empty, no leading zero unless it is "0". */
  predicate Canonical(s: seq<byte>) {
    |s| >= 1 && AllDigits(s) && (s[0] == ZERO_DIGIT ==> |s| == 1)
  }

  function Pow10(k: nat): (p: nat)
    ensures p >= 1
  {
    if k == 0 then 1 else 10 * Pow10(k - 1)
  }

  /** The ASCII decimal digits of `n`, most significant first (`itoa::Buffer::format`). */
  function DecimalDigits(n: nat): (r: seq<byte>)
    ensures Canonical(r)
    ensures r[0] == ZERO_DIGIT <==> n == 0
    decreases n
  {
    if n < 10 then [ZERO_DIGIT + n as byte]
    else DecimalDigits(n / 10) + [ZERO_DIGIT + (n % 10) as byte]
  }

  /** The value of a string of ASCII decimal digits. */
  function ParseDecimal(s: seq<byte>): (n: nat)
    requires AllDigits(s)
  {
    if s == [] then 0
    else 10 * ParseDecimal(s[..|s| - 1]) + (s[|s| - 1] - ZERO_DIGIT) as nat
  }

  /** Parsing the digits back gives the number. */
  lemma {:induction false} ParseDecimalDigits(n: nat)
    ensures ParseDecimal(DecimalDigits(n)) == n
    decreases n
  {
    if n >= 10 {
      var d := DecimalDigits(n);
      assert d[..|d| - 1] == DecimalDigits(n / 10);
      ParseDecimalDigits(n / 10);
    }
  }

  /** Every canonical digit string is the rendering of the number it denotes. */
  lemma {:induction false} DecimalDigitsParse(s: seq<byte>)
    requires Canonical(s)
    ensures DecimalDigits(ParseDecimal(s)) == s
    decreases |s|
  {
    if |s| > 1 {
      var p := s[..|s| - 1];
      assert Canonical(p) by { assert p[0] == s[0]; }
      DecimalDigitsParse(p);
      var v := ParseDecimal(p);
      assert v != 0 by { assert DecimalDigits(v)[0] == p[0] == s[0]; }
      var d := (s[|s| - 1] - ZERO_DIGIT) as nat;
      assert ParseDecimal(s) == 10 * v + d;
      assert (10 * v + d) / 10 == v && (10 * v + d) % 10 == d;
      assert s == p + [s[|s| - 1]];
    } else {
      assert ParseDecimal(s) == (s[0] - ZERO_DIGIT) as nat by {
        assert s[..0] == [];
      }
    }
  }

  /** `n` has at most `k` digits exactly when it is below 10^k. */
  lemma {:induction false} DecimalDigitsLength(n: nat, k: nat)
    requires k >= 1
    ensures |DecimalDigits(n)| <= k <==> n < Pow10(k)
    decreases n
  {
    if n >= 10 {
      if k == 1 {
        assert |DecimalDigits(n)| == |DecimalDigits(n / 10)| + 1;
      } else {
        DecimalDigitsLength(n / 10, k - 1);
        assert n / 10 < Pow10(k - 1) <==> n < 10 * Pow10(k - 1);
      }
    } else {
      assert Pow10(k) == 10 * Pow10(k - 1);
    }
  }

  /** Every `usize` length on the target renders in at most ten digits. */
  lemma UsizeDigits(n: nat)
    requires n <= USIZE_MAX
    ensures |DecimalDigits(n)| <= 10
  {
    assert Pow10(10) == 10_000_000_000;
    DecimalDigitsLength(n, 10);
  }

  function Zeros(n: nat): (z: seq<byte>)
    ensures |z| == n && forall i :: 0 <= i < n ==> z[i] == 0
  {
    seq(n, _ => 0)
  }

  /** The 16 bytes `send` writes as the header packet: a zeroed buffer with the
      tag at 0 and ':' at 15, then the digits copied over bytes 1..1+k.
      None when the copy's end lies past the buffer (more than 15 digits),
      where the slice index panics. */
  function HeaderBytes(kind: CommKind, length: nat): (r: Option<seq<byte>>)
    ensures r.Some? <==> |DecimalDigits(length)| <= HEADER_LEN - 1
    ensures r.Some? ==> |r.value| == HEADER_LEN && r.value[0] == TagByte(kind)
    ensures r.Some? ==> r.value[1..1 + |DecimalDigits(length)|] == DecimalDigits(length)
    ensures |DecimalDigits(length)| <= DIGIT_SPAN ==>
      r.Some? && r.value[HEADER_LEN - 1] == COLON &&
      forall i :: 1 + |DecimalDigits(length)| <= i < HEADER_LEN - 1 ==> r.value[i] == 0
  {
    var digits := DecimalDigits(length);
    var blank := [TagByte(kind)] + Zeros(DIGIT_SPAN) + [COLON];
    if 1 + |digits| > HEADER_LEN then None
    else Some(blank[..1] + digits + blank[1 + |digits|..])
  }

  /** With fifteen digits the copy still fits but the last digit lands on the ':'. */
  lemma ColonOverwritten(kind: CommKind, length: nat)
    requires |DecimalDigits(length)| == HEADER_LEN - 1
    ensures HeaderBytes(kind, length).Some?
    ensures HeaderBytes(kind, length).value[HEADER_LEN - 1] != COLON
  {
  }

  /** The number of leading digit bytes of `s`. */
  function LeadingDigits(s: seq<byte>): (k: nat)
    ensures k <= |s| && AllDigits(s[..k])
    ensures k < |s| ==> !IsDigit(s[k])
  {
    if s == [] || !IsDigit(s[0]) then 0
    else
      var k := 1 + LeadingDigits(s[1..]);
      assert s[..k] == [s[0]] + s[1..][..k - 1];
      k
  }

  /** The leading digits stop where a non-digit follows a digit string. */
  lemma {:induction false} LeadingDigitsStop(d: seq<byte>, rest: seq<byte>)
    requires AllDigits(d)
    requires rest == [] || !IsDigit(rest[0])
    ensures LeadingDigits(d + rest) == |d|
  {
    if d != [] {
      assert (d + rest)[1..] == d[1..] + rest;
      LeadingDigitsStop(d[1..], rest);
    }
  }

  /** What a receiver reads back from a header packet: the kind from byte 0 and
      the length from the canonical digits at 1.., the rest of the span zero,
      the ':' at 15. */
  function DecodeHeader(h: seq<byte>): (m: Option<MessageHeader>) {
    if |h| != HEADER_LEN || h[HEADER_LEN - 1] != COLON then None
    else
      var span := h[1..HEADER_LEN - 1];
      var k := LeadingDigits(span);
      if !Canonical(span[..k]) || exists i :: k <= i < |span| && span[i] != 0 then None
      else Some(MessageHeader(CommKind(h[0] as int as char), ParseDecimal(span[..k])))
  }

  /** The header decodes to the kind and length it was built from. */
  lemma HeaderRoundTrip(kind: CommKind, length: nat)
    requires kind.tag as int < 0x100
    requires |DecimalDigits(length)| <= DIGIT_SPAN
    ensures DecodeHeader(HeaderBytes(kind, length).value) == Some(MessageHeader(kind, length))
  {
    var d := DecimalDigits(length);
    var h := HeaderBytes(kind, length).value;
    var span := h[1..HEADER_LEN - 1];
    assert span[..|d|] == d;
    assert span == d + span[|d|..];
    LeadingDigitsStop(d, span[|d|..]);
    ParseDecimalDigits(length);
    assert (h[0] as int) as char == kind.tag;
  }

  /** A packet that decodes as a header is exactly the encoding of what it decodes to. */
  lemma HeaderDecodeExact(h: seq<byte>)
    requires DecodeHeader(h).Some?
    ensures |DecimalDigits(DecodeHeader(h).value.length)| <= DIGIT_SPAN
    ensures HeaderBytes(DecodeHeader(h).value.kind, DecodeHeader(h).value.length) == Some(h)
  {
    var m := DecodeHeader(h).value;
    var span := h[1..HEADER_LEN - 1];
    var k := LeadingDigits(span);
    DecimalDigitsParse(span[..k]);
    assert m.length == ParseDecimal(span[..k]);
    assert |DecimalDigits(m.length)| == k <= DIGIT_SPAN;
    var e := HeaderBytes(m.kind, m.length).value;
    assert TagByte(m.kind) == h[0];
    forall i | 0 <= i < HEADER_LEN ensures e[i] == h[i] {
      if 1 <= i < 1 + k {
        assert e[i] == e[1..1 + k][i - 1] == span[..k][i - 1];
      } else if 1 + k <= i < HEADER_LEN - 1 {
        assert span[i - 1] == 0;
      }
    }
    assert e == h;
  }

  /** The payload cut into successive slices of `max` bytes, the last one
      possibly shorter, none for an empty payload (`data.chunks(max)`). */
  function Chunks(data: seq<byte>, max: nat): (r: seq<seq<byte>>)
    requires max > 0
    decreases |data|
  {
    if |data| == 0 then []
    else if |data| <= max then [data]
    else [data[..max]] + Chunks(data[max..], max)
  }

  /** The chunks of a non-empty payload: its first `min(|data|, max)` bytes,
      then the chunks of the rest. */
  lemma ChunksStep(data: seq<byte>, max: nat, n: nat)
    requires max > 0 && |data| > 0
    requires n == if |data| <= max then |data| else max
    ensures Chunks(data, max) == [data[..n]] + Chunks(data[n..], max)
  {
    if |data| <= max {
      assert data[..n] == data;
      assert data[n..] == [];
    }
  }

  /** Concatenating the chunks gives back the payload. */
  lemma {:induction false} ChunksFlatten(data: seq<byte>, max: nat)
    requires max > 0
    ensures Flatten(Chunks(data, max)) == data
    decreases |data|
  {
    if |data| == 0 {
    } else if |data| <= max {
      assert Flatten([data]) == data + Flatten([]);
    } else {
      var r := Chunks(data, max);
      assert r[1..] == Chunks(data[max..], max);
      ChunksFlatten(data[max..], max);
      assert data == data[..max] + data[max..];
    }
  }

  /** Every chunk is non-empty and at most `max` bytes; all but the last are
      exactly `max` bytes. */
  lemma {:induction false} ChunksSizes(data: seq<byte>, max: nat)
    requires max > 0
    ensures forall i :: 0 <= i < |Chunks(data, max)| ==> 0 < |Chunks(data, max)[i]| <= max
    ensures forall i :: 0 <= i < |Chunks(data, max)| - 1 ==> |Chunks(data, max)[i]| == max
    decreases |data|
  {
    if |data| > max {
      var r := Chunks(data, max);
      var rest := Chunks(data[max..], max);
      ChunksSizes(data[max..], max);
      assert forall i :: 1 <= i < |r| ==> r[i] == rest[i - 1];
    }
  }

  /** There are ceil(|data| / max) chunks, so none for an empty payload. */
  lemma {:induction false} ChunksCount(data: seq<byte>, max: nat)
    requires max > 0
    ensures |Chunks(data, max)| == (|data| + max - 1) / max
    decreases |data|
  {
    if |data| == 0 {
      DivSmall(max - 1, max);
    } else if |data| <= max {
      DivSmall(|data| - 1, max);
      DivShift(|data| - 1, max);
    } else {
      ChunksCount(data[max..], max);
      DivShift(|data| - 1, max);
    }
  }

  lemma DivSmall(x: nat, m: nat)
    requires x < m
    ensures x / m == 0
  {
  }

  lemma MulAtLeast(m: nat, k: nat)
    requires k >= 1
    ensures m * k >= m
  {
  }

  lemma DivShift(x: nat, m: nat)
    requires m > 0
    ensures (x + m) / m == x / m + 1
  {
    var q, r := x / m, x % m;
    var q2, r2 := (x + m) / m, (x + m) % m;
    assert m * (q2 - q - 1) == r - r2 by {
      assert x == m * q + r;
      assert x + m == m * q2 + r2;
    }
    if q2 > q + 1 {
      MulAtLeast(m, q2 - q - 1);
    } else if q2 < q + 1 {
      MulAtLeast(m, q + 1 - q2);
    }
  }

  /** The concatenation of a sequence of packets. */
  function Flatten(ps: seq<seq<byte>>): (s: seq<byte>) {
    if ps == [] then [] else ps[0] + Flatten(ps[1..])
  }
}
