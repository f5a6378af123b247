/**
 * WiFi/EvilTwinDetection/EvilTwinDetection.py: every SSID seen in beacons is
 * mapped to the set of BSSIDs announcing it, and an SSID announced by more than
 * one BSSID is reported as a possible evil twin.
 */
module EvilTwinDetection {
  import opened Common
  import opened TsharkOutput
  import opened Grouping

  /** An SSID and the distinct BSSIDs that announced it. */
  datatype Twin = Twin(ssid: string, bssids: set<string>)

  datatype Outcome =
    | NotWifi                                   // no frame has encapsulation type 23
    | Crashed(why: Crash)                       // a beacon line raised
    | Checked(twins: seq<Twin>, found: bool)    // `found` false: "No Evil Twin Attack Found."

  /** The distinct BSSIDs seen with `ssid`: `bssid_counts[ssid]`. */
  function BssidSet(pairs: seq<(string, string)>, ssid: string): set<string> {
    set b | b in Select(pairs, ssid)
  }

  /** The reported SSIDs among `ssids` (dict order), with their BSSID sets. */
  function Reported(pairs: seq<(string, string)>, ssids: seq<string>): (r: seq<Twin>)
    ensures forall t :: t in r <==> t.ssid in ssids && |BssidSet(pairs, t.ssid)| > 1 && t.bssids == BssidSet(pairs, t.ssid)
    ensures |r| <= |ssids|
  {
    if ssids == [] then []
    else
      var rest := Reported(pairs, ssids[..|ssids| - 1]);
      var s := ssids[|ssids| - 1];
      assert forall x :: x in ssids <==> x in ssids[..|ssids| - 1] || x == s by {
        assert ssids == ssids[..|ssids| - 1] + [s];
      }
      if |BssidSet(pairs, s)| > 1 then rest + [Twin(s, BssidSet(pairs, s))] else rest
  }

  /** The report of the second loop over `bssid_counts`, in dict (first-seen) order. */
  function Twins(pairs: seq<(string, string)>): seq<Twin> {
    Reported(pairs, Distinct(Keys(pairs)))
  }

  /** An SSID is reported iff more than one distinct BSSID announced it; the report carries that set. */
  lemma TwinsExactly(pairs: seq<(string, string)>, t: Twin)
    ensures t in Twins(pairs) <==> |BssidSet(pairs, t.ssid)| > 1 && t.bssids == BssidSet(pairs, t.ssid)
  {
    DistinctMember(Keys(pairs), t.ssid);
    if |BssidSet(pairs, t.ssid)| > 1 {
      var b :| b in BssidSet(pairs, t.ssid);
      SelectMember(pairs, t.ssid, b);
      assert (t.ssid, b) in pairs;
      var i :| 0 <= i < |pairs| && pairs[i] == (t.ssid, b);
      assert Keys(pairs)[i] == t.ssid;
    }
  }

  /** "No Evil Twin Attack Found." is printed iff no SSID has more than one BSSID. */
  lemma NoTwinIffSingleBssids(pairs: seq<(string, string)>)
    ensures Twins(pairs) == [] <==> forall i :: 0 <= i < |pairs| ==> |BssidSet(pairs, pairs[i].0)| <= 1
  {
    if Twins(pairs) == [] {
      forall i | 0 <= i < |pairs|
        ensures |BssidSet(pairs, pairs[i].0)| <= 1
      {
        TwinsExactly(pairs, Twin(pairs[i].0, BssidSet(pairs, pairs[i].0)));
      }
    } else {
      var t := Twins(pairs)[0];
      TwinsExactly(pairs, t);
      var b :| b in BssidSet(pairs, t.ssid);
      SelectMember(pairs, t.ssid, b);
      var i :| 0 <= i < |pairs| && pairs[i] == (t.ssid, b);
      assert |BssidSet(pairs, pairs[i].0)| > 1;
    }
  }

  /** `order` and `m` are the keys (in insertion order) and values of `bssid_counts` after `pairs`. */
  ghost predicate IsBssidDict(pairs: seq<(string, string)>, order: seq<string>, m: map<string, set<string>>) {
    && order == Distinct(Keys(pairs))
    && (forall s :: s in m <==> s in order)
    && (forall s :: s in m ==> m[s] == BssidSet(pairs, s))
  }

  /** Adding a pair to `bssid_counts` keeps it in step with the pairs read so far. */
  lemma BssidDictAdd(pairs: seq<(string, string)>, order: seq<string>, m: map<string, set<string>>, ssid: string, bssid: string)
    requires IsBssidDict(pairs, order, m)
    ensures IsBssidDict(pairs + [(ssid, bssid)],
                        if ssid in m then order else order + [ssid],
                        m[ssid := (if ssid in m then m[ssid] else {}) + {bssid}])
  {
    BssidOrderAdd(pairs, order, m, ssid, bssid);
    BssidMapAdd(pairs, order, m, ssid, bssid);
    BssidKeysAdd(order, m, ssid, bssid);
  }

  lemma BssidKeysAdd(order: seq<string>, m: map<string, set<string>>, ssid: string, bssid: string)
    requires forall s :: s in m <==> s in order
    ensures var order' := if ssid in m then order else order + [ssid];
      var m' := m[ssid := (if ssid in m then m[ssid] else {}) + {bssid}];
      forall s :: s in m' <==> s in order'
  {
  }

  lemma BssidOrderAdd(pairs: seq<(string, string)>, order: seq<string>, m: map<string, set<string>>, ssid: string, bssid: string)
    requires IsBssidDict(pairs, order, m)
    ensures (if ssid in m then order else order + [ssid]) == Distinct(Keys(pairs + [(ssid, bssid)]))
  {
    KeysSnoc(pairs, (ssid, bssid));
    DistinctSnoc(Keys(pairs), ssid);
    DistinctMember(Keys(pairs), ssid);
  }

  lemma BssidMapAdd(pairs: seq<(string, string)>, order: seq<string>, m: map<string, set<string>>, ssid: string, bssid: string)
    requires IsBssidDict(pairs, order, m)
    ensures var m' := m[ssid := (if ssid in m then m[ssid] else {}) + {bssid}];
      forall s :: s in m' ==> m'[s] == BssidSet(pairs + [(ssid, bssid)], s)
  {
    if ssid !in m {
      DistinctMember(Keys(pairs), ssid);
      SelectNonEmpty(pairs, ssid);
    }
    BssidSetsAdd(pairs, m, ssid, bssid);
  }

  lemma BssidSetsAdd(pairs: seq<(string, string)>, m: map<string, set<string>>, ssid: string, bssid: string)
    requires forall s :: s in m ==> m[s] == BssidSet(pairs, s)
    requires ssid !in m ==> Select(pairs, ssid) == []
    ensures var m' := m[ssid := (if ssid in m then m[ssid] else {}) + {bssid}];
      forall s :: s in m' ==> m'[s] == BssidSet(pairs + [(ssid, bssid)], s)
  {
    var m' := m[ssid := (if ssid in m then m[ssid] else {}) + {bssid}];
    forall s | s in m'
      ensures m'[s] == BssidSet(pairs + [(ssid, bssid)], s)
    {
      SelectSnoc(pairs, (ssid, bssid), s);
      if s == ssid {
        BssidSetSnoc(Select(pairs, s), bssid);
      }
    }
  }

  lemma BssidSetSnoc(bs: seq<string>, bssid: string)
    ensures (set b | b in bs + [bssid]) == (set b | b in bs) + {bssid}
  {
  }

  /** `bssid_counts[ssid].add(bssid)` on the `defaultdict(set)`: a missing key first gets an empty set. */
  method AddBssid(ghost pairs: seq<(string, string)>, order: seq<string>, m: map<string, set<string>>, ssid: string, bssid: string)
    returns (order': seq<string>, m': map<string, set<string>>)
    requires IsBssidDict(pairs, order, m)
    ensures IsBssidDict(pairs + [(ssid, bssid)], order', m')
  {
    order', m' := order, m;
    if ssid !in m' {
      order' := order' + [ssid];
      m' := m'[ssid := {}];
    }
    m' := m'[ssid := m'[ssid] + {bssid}];
    assert m' == m[ssid := (if ssid in m then m[ssid] else {}) + {bssid}];
    BssidDictAdd(pairs, order, m, ssid, bssid);
  }

  /** Step 3 of the script: fills `bssid_counts` from the beacon lines, or stops at the first line that raises. */
  method CollectBssids(lines: seq<string>) returns (r: Result<(seq<string>, map<string, set<string>>)>)
    ensures r.Ok? <==> BeaconPairs(lines).Ok?
    ensures r.Err? ==> r.error == BeaconPairs(lines).error
    ensures r.Ok? ==> IsBssidDict(BeaconPairs(lines).value, r.value.0, r.value.1)
  {
    var order: seq<string> := [];
    var bssidCounts: map<string, set<string>> := map[];
    ghost var pairs: seq<(string, string)> := [];
    var i := 0;
    while i < |lines|
      invariant 0 <= i <= |lines|
      invariant BeaconPairs(lines[..i]) == Ok(pairs)
      invariant IsBssidDict(pairs, order, bssidCounts)
    {
      BeaconPairsNext(lines, i, pairs);
      match BeaconLine(lines[i]) {
        case None =>
        case Some(Err(e)) =>
          BeaconPairsErrStays(lines, i + 1);
          return Err(e);
        case Some(Ok((ssid, bssid))) =>
          order, bssidCounts := AddBssid(pairs, order, bssidCounts, ssid, bssid);
          pairs := pairs + [(ssid, bssid)];
      }
      i := i + 1;
    }
    assert lines[..i] == lines;
    assert BeaconPairs(lines) == Ok(pairs);
    return Ok((order, bssidCounts));
  }

  /** Each key of `order` has its BSSID set in `m`. */
  ghost predicate SetsKnown(pairs: seq<(string, string)>, order: seq<string>, m: map<string, set<string>>) {
    forall k :: 0 <= k < |order| ==> order[k] in m && m[order[k]] == BssidSet(pairs, order[k])
  }

  /** A filled `bssid_counts` knows the set of every key, and walking its keys gives the report. */
  lemma BssidDictKnown(pairs: seq<(string, string)>, order: seq<string>, m: map<string, set<string>>)
    requires IsBssidDict(pairs, order, m)
    ensures SetsKnown(pairs, order, m) && Reported(pairs, order) == Twins(pairs)
  {
    forall k | 0 <= k < |order|
      ensures order[k] in m && m[order[k]] == BssidSet(pairs, order[k])
    {
      assert order[k] in order;
    }
  }

  /** One more key visited: it is reported after the others when it has more than one BSSID. */
  lemma ReportedNext(pairs: seq<(string, string)>, ssids: seq<string>, ssid: string)
    ensures Reported(pairs, ssids + [ssid]) ==
      Reported(pairs, ssids) + (if |BssidSet(pairs, ssid)| > 1 then [Twin(ssid, BssidSet(pairs, ssid))] else [])
  {
    assert (ssids + [ssid])[..|ssids|] == ssids;
  }

  /** Step 4 of the script: walks `bssid_counts` in insertion order and reports SSIDs with more than one BSSID. */
  method ReportTwins(order: seq<string>, bssidCounts: map<string, set<string>>, ghost pairs: seq<(string, string)>)
    returns (twins: seq<Twin>, found: bool)
    requires SetsKnown(pairs, order, bssidCounts)
    ensures twins == Reported(pairs, order)
    ensures found <==> twins != []
  {
    found := false;
    twins := [];
    var k := 0;
    while k < |order|
      invariant 0 <= k <= |order|
      invariant twins == Reported(pairs, order[..k])
      invariant found <==> twins != []
    {
      var ssid := order[k];
      assert order[..k + 1] == order[..k] + [ssid];
      ReportedNext(pairs, order[..k], ssid);
      if |bssidCounts[ssid]| > 1 {
        found := true;
        twins := twins + [Twin(ssid, bssidCounts[ssid])];
      }
      k := k + 1;
    }
    assert order[..k] == order;
  }

  /** The script, given the text of its two tshark runs. */
  method EvilTwinScript(encapOutput: string, beaconOutput: string) returns (r: Outcome)
    ensures !CarriesWifi(encapOutput) ==> r == NotWifi
    ensures CarriesWifi(encapOutput) && BeaconPairs(OutputLines(beaconOutput)).Err? ==>
      r == Crashed(BeaconPairs(OutputLines(beaconOutput)).error)
    ensures CarriesWifi(encapOutput) && BeaconPairs(OutputLines(beaconOutput)).Ok? ==>
      r.Checked? && r.twins == Twins(BeaconPairs(OutputLines(beaconOutput)).value)
    ensures r.Checked? ==> (r.found <==> r.twins != [])
  {
    if !CarriesWifi(encapOutput) {
      return NotWifi;
    }
    var lines := OutputLines(beaconOutput);
    var collected := CollectBssids(lines);
    if collected.Err? {
      return Crashed(collected.error);
    }
    var (order, bssidCounts) := collected.value;
    BssidDictKnown(BeaconPairs(lines).value, order, bssidCounts);
    var twins, found := ReportTwins(order, bssidCounts, BeaconPairs(lines).value);
    return Checked(twins, found);
  }
}
