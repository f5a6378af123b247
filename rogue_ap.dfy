/**
 * WiFi/RogueAPDetection/RogueAPDetection.py: every beacon whose decoded SSID is
 * not on the trusted list is reported, with its BSSID, in capture order.
 */
module RogueApDetection {
  import opened Common
  import opened TsharkOutput

  /** `whitelist_ssids`. */
  const Whitelist: set<string> := {"HomeWiFi", "OfficeAP", "SecureNetwork", "PublicWiFi"}

  datatype Outcome =
    | NotWifi                              // no frame has encapsulation type 23
    | Crashed(why: Crash)                  // a beacon line raised
    | Checked(rogues: seq<(string, string)>) // empty: "No Rogue APs Detected."

  /** `rogue_aps` after the beacons `pairs`: those whose SSID is not trusted, in order. */
  function Rogues(pairs: seq<(string, string)>): (r: seq<(string, string)>)
    ensures forall p :: p in r <==> p in pairs && p.0 !in Whitelist
    ensures |r| <= |pairs|
  {
    if pairs == [] then []
    else
      var last := pairs[|pairs| - 1];
      assert pairs == pairs[..|pairs| - 1] + [last];
      Rogues(pairs[..|pairs| - 1]) + (if last.0 !in Whitelist then [last] else [])
  }

  /** The report over two runs of beacons is the two reports one after the other. */
  lemma {:induction false} RoguesAppend(a: seq<(string, string)>, b: seq<(string, string)>)
    ensures Rogues(a + b) == Rogues(a) + Rogues(b)
    decreases |b|
  {
    if b == [] {
      assert a + b == a;
    } else {
      var b' := b[..|b| - 1];
      assert (a + b)[..|a + b| - 1] == a + b';
      RoguesAppend(a, b');
    }
  }

  /** "No Rogue APs Detected." is printed iff every beacon announced a trusted SSID. */
  lemma NoRoguesIffAllTrusted(pairs: seq<(string, string)>)
    ensures Rogues(pairs) == [] <==> forall i :: 0 <= i < |pairs| ==> pairs[i].0 in Whitelist
  {
    if Rogues(pairs) == [] {
      forall i | 0 <= i < |pairs|
        ensures pairs[i].0 in Whitelist
      {
        assert pairs[i] in pairs;
      }
    } else {
      var p := Rogues(pairs)[0];
      assert p in Rogues(pairs);
      var i :| 0 <= i < |pairs| && pairs[i] == p;
    }
  }

  /** The script, given the text of its two tshark runs. */
  method RogueApScript(encapOutput: string, beaconOutput: string) returns (r: Outcome)
    ensures !CarriesWifi(encapOutput) ==> r == NotWifi
    ensures CarriesWifi(encapOutput) && BeaconPairs(OutputLines(beaconOutput)).Err? ==>
      r == Crashed(BeaconPairs(OutputLines(beaconOutput)).error)
    ensures CarriesWifi(encapOutput) && BeaconPairs(OutputLines(beaconOutput)).Ok? ==>
      r == Checked(Rogues(BeaconPairs(OutputLines(beaconOutput)).value))
  {
    if !CarriesWifi(encapOutput) {
      return NotWifi;
    }
    var lines := OutputLines(beaconOutput);
    var rogueAps: seq<(string, string)> := [];
    ghost var pairs: seq<(string, string)> := [];
    var i := 0;
    while i < |lines|
      invariant 0 <= i <= |lines|
      invariant BeaconPairs(lines[..i]) == Ok(pairs)
      invariant rogueAps == Rogues(pairs)
    {
      BeaconPairsNext(lines, i, pairs);
      match BeaconLine(lines[i]) {
        case None =>
        case Some(Err(e)) =>
          BeaconPairsErrStays(lines, i + 1);
          return Crashed(e);
        case Some(Ok((ssid, bssid))) =>
          assert (pairs + [(ssid, bssid)])[..|pairs|] == pairs;
          if ssid !in Whitelist {
            rogueAps := rogueAps + [(ssid, bssid)];
          }
          pairs := pairs + [(ssid, bssid)];
      }
      i := i + 1;
    }
    assert lines[..i] == lines;
    assert BeaconPairs(lines) == Ok(pairs);
    return Checked(rogueAps);
  }
}
