/** `binascii.hexlify` and `binascii.unhexlify` on a `str` argument. */
module Hex {
  import opened Utf8

  /** Why `unhexlify` refused its argument. */
  datatype UnhexError =
    | NonAscii     // the str holds a non-ASCII character: a plain ValueError
    | OddLength    // binascii.Error "Odd-length string"
    | NonHexDigit  // binascii.Error "Non-hexadecimal digit found"

  datatype Unhexed = Decoded(bytes: seq<byte>) | Refused(why: UnhexError)

  predicate IsHexDigit(c: char) {
    '0' <= c <= '9' || 'a' <= c <= 'f' || 'A' <= c <= 'F'
  }

  function DigitValue(c: char): (v: int)
    requires IsHexDigit(c)
    ensures 0 <= v < 16
  {
    if '0' <= c <= '9' then c as int - '0' as int
    else if 'a' <= c <= 'f' then c as int - 'a' as int + 10
    else c as int - 'A' as int + 10
  }

  function DigitChar(v: int): (c: char)
    requires 0 <= v < 16
    ensures IsHexDigit(c) && DigitValue(c) == v
  {
    if v < 10 then ('0' as int + v) as char else ('a' as int + v - 10) as char
  }

  predicate AllAscii(s: string) {
    forall i :: 0 <= i < |s| ==> s[i] as int < 0x80
  }

  predicate AllHexDigits(s: string) {
    forall i :: 0 <= i < |s| ==> IsHexDigit(s[i])
  }

  /** Decodes a string of hex digit pairs. */
  function Pairs(s: string): (b: seq<byte>)
    requires |s| % 2 == 0 && AllHexDigits(s)
    ensures |b| * 2 == |s|
    ensures forall i :: 0 <= i < |b| ==> b[i] == DigitValue(s[2 * i]) * 16 + DigitValue(s[2 * i + 1])
  {
    if s == [] then [] else [DigitValue(s[0]) * 16 + DigitValue(s[1])] + Pairs(s[2..])
  }

  /**
   * `binascii.unhexlify(s)`: the argument must be ASCII first, then of even length,
   * then made only of hex digits (either case).
   */
  function Unhexlify(s: string): (r: Unhexed)
    ensures r == Refused(NonAscii) <==> !AllAscii(s)
    ensures r == Refused(OddLength) <==> AllAscii(s) && |s| % 2 == 1
    ensures r == Refused(NonHexDigit) <==> AllAscii(s) && |s| % 2 == 0 && !AllHexDigits(s)
    ensures r.Decoded? ==> |r.bytes| * 2 == |s|
    ensures r.Decoded? ==>
      forall i :: 0 <= i < |r.bytes| ==> r.bytes[i] == DigitValue(s[2 * i]) * 16 + DigitValue(s[2 * i + 1])
  {
    if !AllAscii(s) then Refused(NonAscii)
    else if |s| % 2 == 1 then Refused(OddLength)
    else if !AllHexDigits(s) then Refused(NonHexDigit)
    else Decoded(Pairs(s))
  }

  /** `binascii.hexlify(b).decode()`: two lower-case digits per byte. */
  function Hexlify(b: seq<byte>): (s: string)
    ensures |s| == 2 * |b| && AllAscii(s) && AllHexDigits(s)
    ensures forall i :: 0 <= i < |b| ==> s[2 * i] == DigitChar(b[i] / 16) && s[2 * i + 1] == DigitChar(b[i] % 16)
  {
    if b == [] then [] else [DigitChar(b[0] / 16), DigitChar(b[0] % 16)] + Hexlify(b[1..])
  }

  /** Unhexlifying what hexlify produced gives the bytes back. */
  lemma UnhexlifyHexlify(b: seq<byte>)
    ensures Unhexlify(Hexlify(b)) == Decoded(b)
  {
    var s := Hexlify(b);
    var d := Unhexlify(s).bytes;
    forall i | 0 <= i < |b|
      ensures d[i] == b[i]
    {
      assert b[i] == (b[i] / 16) * 16 + b[i] % 16;
    }
  }
}
