/**
 * UTF-8 as Python's `str.encode()` and `bytes.decode("utf-8", "ignore")` do it.
 * The "ignore" handler drops, at each point where no well-formed sequence starts,
 * the maximal prefix of a well-formed sequence (at least one byte) and carries on.
 */
module Utf8 {

  type byte = b: int | 0 <= b < 256

  predicate IsContinuation(b: byte) {
    0x80 <= b <= 0xBF
  }

  /** Lowest and highest byte allowed right after lead byte `b0` (Table 3-7 of the Unicode Standard). */
  function SecondLow(b0: byte): byte {
    if b0 == 0xE0 then 0xA0 else if b0 == 0xF0 then 0x90 else 0x80
  }

  function SecondHigh(b0: byte): byte {
    if b0 == 0xED then 0x9F else if b0 == 0xF4 then 0x8F else 0xBF
  }

  predicate SecondOk(b0: byte, b1: byte) {
    SecondLow(b0) <= b1 <= SecondHigh(b0)
  }

  /** Length of the well-formed sequence `b` starts with, or 0 when it starts with none. */
  function WellFormedLength(b: seq<byte>): (n: nat)
    requires b != []
    ensures n <= |b| && n <= 4
  {
    var b0 := b[0];
    if b0 < 0x80 then 1
    else if 0xC2 <= b0 <= 0xDF then
      (if |b| >= 2 && IsContinuation(b[1]) then 2 else 0)
    else if 0xE0 <= b0 <= 0xEF then
      (if |b| >= 3 && SecondOk(b0, b[1]) && IsContinuation(b[2]) then 3 else 0)
    else if 0xF0 <= b0 <= 0xF4 then
      (if |b| >= 4 && SecondOk(b0, b[1]) && IsContinuation(b[2]) && IsContinuation(b[3]) then 4 else 0)
    else 0
  }

  /** Number of bytes the "ignore" handler drops where no well-formed sequence starts. */
  function MaximalSubpart(b: seq<byte>): (n: nat)
    requires b != []
    ensures 1 <= n <= |b|
  {
    var b0 := b[0];
    if b0 < 0xC2 || b0 > 0xF4 then 1
    else if |b| < 2 || !SecondOk(b0, b[1]) then 1
    else if |b| < 3 || !IsContinuation(b[2]) then 2
    else 3
  }

  /** The six payload bits of a continuation byte. */
  function Payload(b: byte): int {
    b as int - 0x80
  }

  /** The character a well-formed sequence of length `WellFormedLength(b)` stands for. */
  function Scalar(b: seq<byte>): char
    requires b != [] && WellFormedLength(b) > 0
  {
    var n := WellFormedLength(b);
    if n == 1 then b[0] as char
    else if n == 2 then ((b[0] as int - 0xC0) * 64 + Payload(b[1])) as char
    else if n == 3 then (((b[0] as int - 0xE0) * 64 + Payload(b[1])) * 64 + Payload(b[2])) as char
    else ((((b[0] as int - 0xF0) * 64 + Payload(b[1])) * 64 + Payload(b[2])) * 64 + Payload(b[3])) as char
  }

  /** `bytes(b).decode("utf-8", "ignore")`. */
  function DecodeIgnore(b: seq<byte>): string
    decreases |b|
  {
    if b == [] then ""
    else if WellFormedLength(b) > 0 then
      [Scalar(b)] + DecodeIgnore(b[WellFormedLength(b)..])
    else DecodeIgnore(b[MaximalSubpart(b)..])
  }

  /** The UTF-8 encoding of one character. */
  function EncodeChar(c: char): (r: seq<byte>)
    ensures 1 <= |r| <= 4
  {
    var n := c as int;
    var n1 := n / 64;
    var n2 := n1 / 64;
    if n < 0x80 then [n]
    else if n < 0x800 then [0xC0 + n1, 0x80 + n % 64]
    else if n < 0x10000 then [0xE0 + n2, 0x80 + n1 % 64, 0x80 + n % 64]
    else [0xF0 + n2 / 64, 0x80 + n2 % 64, 0x80 + n1 % 64, 0x80 + n % 64]
  }

  /** `s.encode()` (UTF-8). */
  function Encode(s: string): seq<byte> {
    if s == [] then [] else EncodeChar(s[0]) + Encode(s[1..])
  }

  /** The encoding of a character is a well-formed sequence that decodes to that character. */
  lemma EncodeCharWellFormed(c: char, rest: seq<byte>)
    ensures var b := EncodeChar(c) + rest;
            WellFormedLength(b) == |EncodeChar(c)| && Scalar(b) == c
  {
    var n := c as int;
    if n < 0x80 {
    } else if n < 0x800 {
      EncodeTwo(c, rest);
    } else if n < 0x10000 {
      EncodeThree(c, rest);
    } else {
      EncodeFour(c, rest);
    }
  }

  lemma EncodeTwo(c: char, rest: seq<byte>)
    requires 0x80 <= c as int < 0x800
    ensures var b := EncodeChar(c) + rest;
            WellFormedLength(b) == 2 && Scalar(b) == c
  {
    var n := c as int;
    var n1 := n / 64;
    assert n == n1 * 64 + n % 64;
    var b := EncodeChar(c) + rest;
    assert b[0] == 0xC0 + n1 && b[1] == 0x80 + n % 64;
  }

  lemma EncodeThree(c: char, rest: seq<byte>)
    requires 0x800 <= c as int < 0x10000
    ensures var b := EncodeChar(c) + rest;
            WellFormedLength(b) == 3 && Scalar(b) == c
  {
    var n := c as int;
    var n1 := n / 64;
    var n2 := n1 / 64;
    assert n == n1 * 64 + n % 64 && n1 == n2 * 64 + n1 % 64;
    var b := EncodeChar(c) + rest;
    assert n < 0xD800 || n >= 0xE000;
    assert b[0] == 0xE0 + n2 && b[1] == 0x80 + n1 % 64 && b[2] == 0x80 + n % 64;
  }

  lemma EncodeFour(c: char, rest: seq<byte>)
    requires 0x10000 <= c as int
    ensures var b := EncodeChar(c) + rest;
            WellFormedLength(b) == 4 && Scalar(b) == c
  {
    var n := c as int;
    var n1 := n / 64;
    var n2 := n1 / 64;
    assert n == n1 * 64 + n % 64 && n1 == n2 * 64 + n1 % 64;
    assert n2 == (n2 / 64) * 64 + n2 % 64;
    var b := EncodeChar(c) + rest;
    assert b[0] == 0xF0 + n2 / 64 && b[1] == 0x80 + n2 % 64;
    assert b[2] == 0x80 + n1 % 64 && b[3] == 0x80 + n % 64;
  }

  /** One encoded character in front of `rest` decodes to that character, then the decoding of `rest`. */
  lemma DecodeEncodedChar(c: char, rest: seq<byte>)
    ensures DecodeIgnore(EncodeChar(c) + rest) == [c] + DecodeIgnore(rest)
  {
    var b := EncodeChar(c) + rest;
    EncodeCharWellFormed(c, rest);
    assert b[|EncodeChar(c)|..] == rest;
  }

  /** Decoding what `Encode` produced gives the text back, with nothing ignored. */
  lemma {:induction false} DecodeEncode(s: string)
    ensures DecodeIgnore(Encode(s)) == s
    decreases |s|
  {
    if s != [] {
      DecodeEncodedChar(s[0], Encode(s[1..]));
      DecodeEncode(s[1..]);
      assert s == [s[0]] + s[1..];
    }
  }

  /** ASCII bytes decode one character per byte. */
  lemma {:induction false} DecodeAscii(b: seq<byte>)
    requires forall i :: 0 <= i < |b| ==> b[i] < 0x80
    ensures |DecodeIgnore(b)| == |b|
    ensures forall i :: 0 <= i < |b| ==> DecodeIgnore(b)[i] as int == b[i]
    decreases |b|
  {
    if b != [] {
      DecodeAscii(b[1..]);
    }
  }
}
