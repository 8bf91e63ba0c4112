/** UTF-8, as a buffer converts between strings and bytes: `Buffer.byteLength` and
    `buffer.write` encode, `buffer.toString()` decodes and replaces every ill-formed
    subsequence with U+FFFD (one replacement per maximal subpart, as the WHATWG
    decoder does). Characters are Unicode scalar values. */
module Utf8 {
  import opened Formats

  /** The encoding of one scalar value: one to four bytes. */
  function EncodeChar(c: char): (r: seq<byte>)
    ensures 1 <= |r| <= 4
  {
    var n := c as int;
    if n < 0x80 then [n]
    else if n < 0x800 then [0xC0 + n / 0x40, 0x80 + n % 0x40]
    else if n < 0x1_0000 then [0xE0 + n / 0x1000, 0x80 + n / 0x40 % 0x40, 0x80 + n % 0x40]
    else [0xF0 + n / 0x4_0000, 0x80 + n / 0x1000 % 0x40, 0x80 + n / 0x40 % 0x40, 0x80 + n % 0x40]
  }

  /** The encoding of a string: its characters' encodings, one after the other. */
  function Encode(s: string): (r: seq<byte>)
    ensures |s| <= |r| <= 4 * |s|
  {
    if s == [] then [] else EncodeChar(s[0]) + Encode(s[1..])
  }

  /** Bytes 0x80..0xBF continue a multi-byte sequence. */
  predicate IsContinuation(b: byte)
  {
    0x80 <= b <= 0xBF
  }

  /** How many continuation bytes a lead byte announces; -1 for a byte that cannot start a sequence. */
  function Needed(lead: byte): int
  {
    if lead <= 0x7F then 0
    else if 0xC2 <= lead <= 0xDF then 1
    else if 0xE0 <= lead <= 0xEF then 2
    else if 0xF0 <= lead <= 0xF4 then 3
    else -1
  }

  /** Bounds on the byte after a lead byte; they exclude overlong forms, surrogates
      and values past U+10FFFF. */
  function SecondLow(lead: byte): byte
  {
    if lead == 0xE0 then 0xA0 else if lead == 0xF0 then 0x90 else 0x80
  }

  function SecondHigh(lead: byte): byte
  {
    if lead == 0xED then 0x9F else if lead == 0xF4 then 0x8F else 0xBF
  }

  /** How many bytes after b[0] continue the sequence that b[0] starts (at most Needed(b[0])). */
  function Matched(b: seq<byte>): (k: nat)
    requires |b| > 0 && Needed(b[0]) >= 0
    ensures k <= Needed(b[0]) && k < |b|
  {
    var need := Needed(b[0]);
    if need == 0 || |b| < 2 || !(SecondLow(b[0]) <= b[1] <= SecondHigh(b[0])) then 0
    else if need == 1 || |b| < 3 || !IsContinuation(b[2]) then 1
    else if need == 2 || |b| < 4 || !IsContinuation(b[3]) then 2
    else 3
  }

  /** b starts with a complete, well-formed sequence. */
  predicate Complete(b: seq<byte>)
  {
    |b| > 0 && Needed(b[0]) >= 0 && Matched(b) == Needed(b[0])
  }

  /** The six payload bits of a continuation byte. */
  function Low(b: byte): int
  {
    b as int - 0x80
  }

  /** The scalar value that a complete sequence at the head of b stands for. */
  function ScalarOf(b: seq<byte>): (n: int)
    requires Complete(b)
    ensures 0 <= n < 0xD800 || 0xE000 <= n < 0x11_0000
  {
    var need, b0 := Needed(b[0]), b[0] as int;
    if need == 0 then b0
    else if need == 1 then (b0 - 0xC0) * 0x40 + Low(b[1])
    else if need == 2 then (b0 - 0xE0) * 0x1000 + Low(b[1]) * 0x40 + Low(b[2])
    else (b0 - 0xF0) * 0x4_0000 + Low(b[1]) * 0x1000 + Low(b[2]) * 0x40 + Low(b[3])
  }

  const Replacement: char := 0xFFFD as char

  /** One step of decoding: the next character and the number of bytes it consumes.
      An ill-formed prefix becomes one U+FFFD and consumes the lead byte and the
      continuation bytes that still fitted; the offending byte is decoded afresh. */
  function DecodeStep(b: seq<byte>): (r: (char, nat))
    requires |b| > 0
    ensures 1 <= r.1 <= |b|
    ensures Complete(b) ==> r == (ScalarOf(b) as char, Needed(b[0]) + 1)
    ensures !Complete(b) ==> r.0 == Replacement
  {
    var need := Needed(b[0]);
    if need < 0 then (Replacement, 1)
    else
      var k := Matched(b);
      if k < need then (Replacement, k + 1)
      else (ScalarOf(b) as char, need + 1)
  }

  /** The string that `buffer.toString()` yields for the bytes b. */
  function Decode(b: seq<byte>): (s: string)
    ensures |s| <= |b|
    decreases |b|
  {
    if b == [] then []
    else
      var r := DecodeStep(b);
      [r.0] + Decode(b[r.1..])
  }

  /** b is a sequence of complete, well-formed UTF-8 sequences. */
  predicate WellFormed(b: seq<byte>)
    decreases |b|
  {
    b == [] || (Complete(b) && WellFormed(b[Needed(b[0]) + 1..]))
  }

  /** A two-byte character: its bytes form a complete sequence worth n. */
  lemma EncodeTwo(n: int, rest: seq<byte>)
    requires 0x80 <= n < 0x800
    ensures var b := [0xC0 + n / 0x40, 0x80 + n % 0x40] + rest;
      Complete(b) && Needed(b[0]) == 1 && ScalarOf(b) == n
  {
    var hi, lo := n / 0x40, n % 0x40;
    assert n == hi * 0x40 + lo;
  }

  /** A three-byte character: its bytes form a complete sequence worth n. */
  lemma EncodeThree(n: int, rest: seq<byte>)
    requires 0x800 <= n < 0xD800 || 0xE000 <= n < 0x1_0000
    ensures var b := [0xE0 + n / 0x1000, 0x80 + n / 0x40 % 0x40, 0x80 + n % 0x40] + rest;
      Complete(b) && Needed(b[0]) == 2 && ScalarOf(b) == n
  {
    var q, lo := n / 0x40, n % 0x40;
    var hi, mid := q / 0x40, q % 0x40;
    assert n / 0x1000 == hi && n / 0x40 % 0x40 == mid;
    assert n == hi * 0x1000 + mid * 0x40 + lo;
  }

  /** A four-byte character: its bytes form a complete sequence worth n. */
  lemma EncodeFour(n: int, rest: seq<byte>)
    requires 0x1_0000 <= n < 0x11_0000
    ensures var b := [0xF0 + n / 0x4_0000, 0x80 + n / 0x1000 % 0x40, 0x80 + n / 0x40 % 0x40, 0x80 + n % 0x40] + rest;
      Complete(b) && Needed(b[0]) == 3 && ScalarOf(b) == n
  {
    var q, lo := n / 0x40, n % 0x40;
    var r, mid := q / 0x40, q % 0x40;
    var hi, up := r / 0x40, r % 0x40;
    assert n / 0x4_0000 == hi && n / 0x1000 % 0x40 == up && n / 0x40 % 0x40 == mid;
    assert n == hi * 0x4_0000 + up * 0x1000 + mid * 0x40 + lo;
  }

  /** Decoding the encoding of one character, whatever follows it, gives that character back. */
  lemma DecodeStepEncodeChar(c: char, rest: seq<byte>)
    ensures Complete(EncodeChar(c) + rest)
    ensures DecodeStep(EncodeChar(c) + rest) == (c, |EncodeChar(c)|)
  {
    var n := c as int;
    if n < 0x80 {
    } else if n < 0x800 {
      EncodeTwo(n, rest);
    } else if n < 0x1_0000 {
      EncodeThree(n, rest);
    } else {
      EncodeFour(n, rest);
    }
  }

  /** Two bytes a, c with a >= 0 and c < 64 split back out of a * 64 + c. */
  lemma Join(a: int, c: int)
    requires 0 <= c < 0x40
    ensures (a * 0x40 + c) / 0x40 == a && (a * 0x40 + c) % 0x40 == c
  {
  }

  /** A complete two-byte sequence is the encoding of the character it stands for. */
  lemma DecodeTwo(b: seq<byte>)
    requires Complete(b) && Needed(b[0]) == 1
    ensures EncodeChar(ScalarOf(b) as char) == b[..2]
  {
    Join(b[0] as int - 0xC0, Low(b[1]));
  }

  /** A complete three-byte sequence is the encoding of the character it stands for. */
  lemma DecodeThree(b: seq<byte>)
    requires Complete(b) && Needed(b[0]) == 2
    ensures EncodeChar(ScalarOf(b) as char) == b[..3]
  {
    var hi := b[0] as int - 0xE0;
    var q := hi * 0x40 + Low(b[1]);
    Join(q, Low(b[2]));
    Join(hi, Low(b[1]));
    assert ScalarOf(b) == q * 0x40 + Low(b[2]);
  }

  /** A complete four-byte sequence is the encoding of the character it stands for. */
  lemma DecodeFour(b: seq<byte>)
    requires Complete(b) && Needed(b[0]) == 3
    ensures EncodeChar(ScalarOf(b) as char) == b[..4]
  {
    var hi := b[0] as int - 0xF0;
    var r := hi * 0x40 + Low(b[1]);
    var q := r * 0x40 + Low(b[2]);
    Join(q, Low(b[3]));
    Join(r, Low(b[2]));
    Join(hi, Low(b[1]));
    assert ScalarOf(b) == q * 0x40 + Low(b[3]);
  }

  /** Encoding the character that a complete sequence decodes to gives that sequence back. */
  lemma EncodeCharDecodeStep(b: seq<byte>)
    requires Complete(b)
    ensures EncodeChar(DecodeStep(b).0) == b[..Needed(b[0]) + 1]
  {
    var need := Needed(b[0]);
    if need == 1 {
      DecodeTwo(b);
    } else if need == 2 {
      DecodeThree(b);
    } else if need == 3 {
      DecodeFour(b);
    }
  }

  /** Decoding undoes encoding: `buffer.toString()` of `buffer.write(s)` is s. */
  lemma {:induction false} DecodeEncode(s: string)
    ensures Decode(Encode(s)) == s
    decreases |s|
  {
    if s != [] {
      var e, rest := EncodeChar(s[0]), Encode(s[1..]);
      DecodeStepEncodeChar(s[0], rest);
      assert (e + rest)[|e|..] == rest;
      DecodeEncode(s[1..]);
    }
  }

  /** Every encoding is well-formed. */
  lemma {:induction false} EncodeWellFormed(s: string)
    ensures WellFormed(Encode(s))
    decreases |s|
  {
    if s != [] {
      var e, rest := EncodeChar(s[0]), Encode(s[1..]);
      DecodeStepEncodeChar(s[0], rest);
      assert (e + rest)[|e|..] == rest;
      EncodeWellFormed(s[1..]);
    }
  }

  /** Encoding undoes decoding on well-formed bytes. */
  lemma {:induction false} EncodeDecode(b: seq<byte>)
    requires WellFormed(b)
    ensures Encode(Decode(b)) == b
    decreases |b|
  {
    if b != [] {
      var k := Needed(b[0]) + 1;
      EncodeCharDecodeStep(b);
      EncodeDecode(b[k..]);
      assert b == b[..k] + b[k..];
    }
  }

  /** Bytes below 0x80, ASCII text such as "YAHOOO!", are well-formed. */
  lemma {:induction false} AsciiWellFormed(b: seq<byte>)
    requires forall i :: 0 <= i < |b| ==> b[i] < 0x80
    ensures WellFormed(b)
    decreases |b|
  {
    if b != [] {
      AsciiWellFormed(b[1..]);
    }
  }

  /** Re-encoding the decoded bytes reproduces them exactly when they are well-formed:
      `buffer.toString()` loses information precisely on ill-formed input. */
  lemma RoundTripIffWellFormed(b: seq<byte>)
    ensures Encode(Decode(b)) == b <==> WellFormed(b)
  {
    EncodeWellFormed(Decode(b));
    if WellFormed(b) {
      EncodeDecode(b);
    }
  }
}
