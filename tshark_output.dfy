/**
 * Reading the text tshark prints with `-T fields`, as the three stand-alone
 * Wi-Fi detectors do it: the output is stripped and cut at newlines, a line
 * whose fields are tab-separated is unpacked into exactly two fields, and a
 * beacon's SSID field is decoded from hex, falling back to the raw text.
 */
module TsharkOutput {
  import opened Common
  import opened Text
  import opened Utf8
  import opened Hex

  /** `stdout.strip().split("\n")`. */
  function OutputLines(stdout: string): seq<string> {
    Split(Strip(stdout), '\n')
  }

  /** `"23" in set(encap_output.strip().split("\n"))`: the capture holds 802.11 frames. */
  predicate CarriesWifi(encapOutput: string) {
    "23" in OutputLines(encapOutput)
  }

  /** Lines the loops look at: `if line and "\t" in line`. */
  predicate IsFieldLine(line: string) {
    line != "" && '\t' in line
  }

  /** `a, b = line.split("\t")`: succeeds exactly when the line holds one tab. */
  function SplitTabPair(line: string): (r: Result<(string, string)>)
    ensures r.Ok? <==> Occurrences(line, '\t') == 1
    ensures r.Ok? ==> line == r.value.0 + "\t" + r.value.1
    ensures r.Ok? ==> '\t' !in r.value.0 && '\t' !in r.value.1
    ensures r.Err? ==> r.error == UnpackError
  {
    var parts := Split(line, '\t');
    SplitLength(line, '\t');
    JoinSplit(line, '\t');
    if |parts| == 2 then
      assert Join(parts, "\t") == parts[0] + "\t" + parts[1];
      Ok((parts[0], parts[1]))
    else Err(UnpackError)
  }

  /**
   * `binascii.unhexlify(field).decode("utf-8", "ignore")`, keeping the raw field when
   * unhexlify raises binascii.Error. A non-ASCII field raises a plain ValueError,
   * which the `except binascii.Error` clause does not catch.
   */
  function DecodeSsid(field: string): (r: Result<string>)
    ensures r == Err(NonAsciiHex) <==> !AllAscii(field)
    ensures r.Err? ==> r == Err(NonAsciiHex)
    ensures AllAscii(field) && (|field| % 2 == 1 || !AllHexDigits(field)) ==> r == Ok(field)
  {
    match Unhexlify(field)
    case Decoded(bytes) => Ok(DecodeIgnore(bytes))
    case Refused(NonAscii) => Err(NonAsciiHex)
    case Refused(_) => Ok(field)
  }

  /** An SSID tshark printed as the hex of its UTF-8 bytes decodes back to the SSID. */
  lemma DecodeSsidOfHex(ssid: string)
    ensures DecodeSsid(Hexlify(Encode(ssid))) == Ok(ssid)
  {
    UnhexlifyHexlify(Encode(ssid));
    DecodeEncode(ssid);
  }

  /** One beacon line: skipped (`None`), its (decoded SSID, BSSID), or the exception it raises. */
  function BeaconLine(line: string): (r: Option<Result<(string, string)>>)
    ensures r.None? <==> !IsFieldLine(line)
  {
    if !IsFieldLine(line) then None
    else match SplitTabPair(line)
      case Err(e) => Some(Err(e))
      case Ok((hex, bssid)) =>
        match DecodeSsid(hex)
        case Err(e) => Some(Err(e))
        case Ok(ssid) => Some(Ok((ssid, bssid)))
  }

  /** The (SSID, BSSID) pairs of the beacon lines in order, or the exception the first bad line raises. */
  function BeaconPairs(lines: seq<string>): (r: Result<seq<(string, string)>>)
    ensures r.Ok? ==> |r.value| <= |lines|
    decreases |lines|
  {
    if lines == [] then Ok([])
    else match BeaconPairs(lines[..|lines| - 1])
      case Err(e) => Err(e)
      case Ok(ps) =>
        match BeaconLine(lines[|lines| - 1])
        case None => Ok(ps)
        case Some(Err(e)) => Err(e)
        case Some(Ok(p)) => Ok(ps + [p])
  }

  /** One more line read: the pairs grow by what `BeaconLine` makes of it. */
  lemma BeaconPairsNext(lines: seq<string>, i: nat, ps: seq<(string, string)>)
    requires i < |lines| && BeaconPairs(lines[..i]) == Ok(ps)
    ensures BeaconPairs(lines[..i + 1]) ==
      match BeaconLine(lines[i])
      case None => Ok(ps)
      case Some(Err(e)) => Err(e)
      case Some(Ok(p)) => Ok(ps + [p])
  {
    assert lines[..i + 1][..i] == lines[..i];
  }

  /** Once a line has raised, the script has ended whatever follows. */
  lemma {:induction false} BeaconPairsErrStays(lines: seq<string>, i: nat)
    requires i <= |lines| && BeaconPairs(lines[..i]).Err?
    ensures BeaconPairs(lines) == BeaconPairs(lines[..i])
    decreases |lines| - i
  {
    if i < |lines| {
      assert lines[..i + 1][..i] == lines[..i];
      BeaconPairsErrStays(lines, i + 1);
    } else {
      assert lines[..i] == lines;
    }
  }

  /** The last line of a run that did not raise: the lines before it did not raise, and it added one pair exactly when it is a beacon line. */
  lemma BeaconPairsLast(lines: seq<string>)
    requires lines != [] && BeaconPairs(lines).Ok?
    ensures var n := |lines| - 1;
      && BeaconPairs(lines[..n]).Ok?
      && (BeaconLine(lines[n]).None? || BeaconLine(lines[n]).value.Ok?)
      && |BeaconPairs(lines).value| == |BeaconPairs(lines[..n]).value| + (if IsFieldLine(lines[n]) then 1 else 0)
  {
  }

  /** Every beacon line that does not raise contributes one pair; other lines none. */
  lemma {:induction false} BeaconPairsOneEach(lines: seq<string>)
    requires BeaconPairs(lines).Ok?
    ensures |BeaconPairs(lines).value| == FieldLineCount(lines)
    ensures forall i :: 0 <= i < |lines| ==> BeaconLine(lines[i]) != Some(Err(UnpackError))
    decreases |lines|
  {
    if lines != [] {
      var n := |lines| - 1;
      var p := lines[..n];
      BeaconPairsLast(lines);
      BeaconPairsOneEach(p);
      forall i | 0 <= i < |lines|
        ensures BeaconLine(lines[i]) != Some(Err(UnpackError))
      {
        if i < n {
          assert lines[i] == p[i];
        }
      }
    }
  }

  /** The number of lines that hold a tab. */
  function FieldLineCount(lines: seq<string>): nat
    decreases |lines|
  {
    if lines == [] then 0
    else FieldLineCount(lines[..|lines| - 1]) + (if IsFieldLine(lines[|lines| - 1]) then 1 else 0)
  }
}
