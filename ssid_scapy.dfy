/**
 * WiFi/MACRandomization/SSID_Clustering/SSID_List_Clustering.py: each probe
 * request adds its first non-empty SSID element to its sender's set, and
 * every pair of sets is compared by a Jaccard similarity that is 0 for two
 * empty sets.
 */
module SsidSetsScapy {
  import opened Common
  import opened Utf8
  import opened Grouping
  import SsidSetsTshark

  /** A `Dot11Elt` layer: its element ID, its length field and its `info` bytes, as captured. */
  datatype Element = Element(id: byte, len: byte, info: seq<byte>)

  /** A captured frame: whether it has a `Dot11ProbeReq` layer, `addr2`, and its `Dot11Elt` layers in order. */
  datatype Packet = Packet(probeRequest: bool, addr2: string, elements: seq<Element>)

  /** Element ID 0 is the SSID element (section 9.4.2.2 of IEEE 802.11-2020); empty `info` is the wildcard SSID. */
  predicate IsNamedSsid(e: Element) {
    e.id == 0 && e.info != []
  }

  /** The SSID the element loop adds for one probe request: the first named SSID element, decoded with errors ignored. */
  function FirstSsid(elements: seq<Element>): Option<string> {
    if elements == [] then None
    else if IsNamedSsid(elements[0]) then Some(DecodeIgnore(elements[0].info))
    else FirstSsid(elements[1..])
  }

  /** The loop stops at the first named SSID element and adds its text; without one it adds nothing. */
  lemma {:induction false} FirstSsidExactly(elements: seq<Element>)
    ensures FirstSsid(elements).None? <==> forall i :: 0 <= i < |elements| ==> !IsNamedSsid(elements[i])
    ensures FirstSsid(elements).Some? ==>
      exists i :: 0 <= i < |elements| && IsNamedSsid(elements[i]) && FirstSsid(elements).value == DecodeIgnore(elements[i].info)
                  && forall j :: 0 <= j < i ==> !IsNamedSsid(elements[j])
    decreases |elements|
  {
    if elements != [] && !IsNamedSsid(elements[0]) {
      var tail := elements[1..];
      FirstSsidExactly(tail);
      assert forall i :: 0 <= i < |tail| ==> tail[i] == elements[i + 1];
      if FirstSsid(tail).Some? {
        var i :| 0 <= i < |tail| && IsNamedSsid(tail[i]) && FirstSsid(tail).value == DecodeIgnore(tail[i].info)
                 && forall j :: 0 <= j < i ==> !IsNamedSsid(tail[j]);
        assert forall j :: 0 <= j < i + 1 ==> !IsNamedSsid(elements[j]) by {
          forall j | 0 <= j < i + 1
            ensures !IsNamedSsid(elements[j])
          {
            if j > 0 {
              assert elements[j] == tail[j - 1];
            }
          }
        }
      }
    }
  }

  /** The (MAC, SSID) additions the packet loop makes, in capture order. */
  function SsidPairs(packets: seq<Packet>): (r: seq<(string, string)>)
    ensures |r| <= |packets|
  {
    if packets == [] then []
    else
      var p := packets[|packets| - 1];
      var found := FirstSsid(p.elements);
      SsidPairs(packets[..|packets| - 1]) + (if p.probeRequest && found.Some? then [(p.addr2, found.value)] else [])
  }

  lemma SsidPairsNext(packets: seq<Packet>, i: nat)
    requires i < |packets|
    ensures var found := FirstSsid(packets[i].elements);
      SsidPairs(packets[..i + 1]) ==
        SsidPairs(packets[..i]) + (if packets[i].probeRequest && found.Some? then [(packets[i].addr2, found.value)] else [])
  {
    assert packets[..i + 1][..i] == packets[..i];
  }

  /** `ssid_map[mac]` after the additions `pairs`. */
  function SsidSet(pairs: seq<(string, string)>, mac: string): set<string> {
    set s | s in Select(pairs, mac)
  }

  /** Every MAC in `ssid_map` has a non-empty set: an entry is made only by adding an SSID. */
  lemma StoredSetsNonEmpty(pairs: seq<(string, string)>, mac: string)
    requires mac in Distinct(Keys(pairs))
    ensures SsidSet(pairs, mac) != {}
  {
    DistinctMember(Keys(pairs), mac);
    SelectNonEmpty(pairs, mac);
    assert Select(pairs, mac)[0] in SsidSet(pairs, mac);
  }

  /** A MAC that made an addition is one whose probe request carried a named SSID element, and conversely. */
  predicate NamedProbeFrom(p: Packet, mac: string) {
    p.probeRequest && p.addr2 == mac && FirstSsid(p.elements).Some?
  }

  /** The last packet adds its sender to the keys exactly when it is a probe request naming an SSID. */
  lemma SsidPairsKeysLast(packets: seq<Packet>, mac: string)
    requires packets != []
    ensures mac in Keys(SsidPairs(packets)) <==>
      mac in Keys(SsidPairs(packets[..|packets| - 1])) || NamedProbeFrom(packets[|packets| - 1], mac)
  {
    var p := packets[|packets| - 1];
    var found := FirstSsid(p.elements);
    var ps := SsidPairs(packets[..|packets| - 1]);
    if p.probeRequest && found.Some? {
      KeysSnoc(ps, (p.addr2, found.value));
    } else {
      assert SsidPairs(packets) == ps;
    }
  }

  /** Some packet of `packets` is a probe request from `mac` naming an SSID. */
  predicate HasNamedProbe(packets: seq<Packet>, mac: string) {
    exists i :: 0 <= i < |packets| && NamedProbeFrom(packets[i], mac)
  }

  lemma HasNamedProbeSnoc(packets: seq<Packet>, mac: string)
    requires packets != []
    ensures HasNamedProbe(packets, mac) <==>
      HasNamedProbe(packets[..|packets| - 1], mac) || NamedProbeFrom(packets[|packets| - 1], mac)
  {
    var init := packets[..|packets| - 1];
    if HasNamedProbe(init, mac) {
      var i :| 0 <= i < |init| && NamedProbeFrom(init[i], mac);
      assert packets[i] == init[i];
    }
    if HasNamedProbe(packets, mac) {
      var i :| 0 <= i < |packets| && NamedProbeFrom(packets[i], mac);
      if i < |init| {
        assert packets[i] == init[i];
      }
    }
  }

  lemma {:induction false} SsidPairsKeys(packets: seq<Packet>, mac: string)
    ensures mac in Keys(SsidPairs(packets)) <==> HasNamedProbe(packets, mac)
    decreases |packets|
  {
    if packets != [] {
      SsidPairsKeysLast(packets, mac);
      SsidPairsKeys(packets[..|packets| - 1], mac);
      HasNamedProbeSnoc(packets, mac);
    }
  }

  /** A MAC gets an entry iff one of its probe requests carried a named SSID element. */
  lemma MacListedIffNamedProbe(packets: seq<Packet>, mac: string)
    ensures mac in Distinct(Keys(SsidPairs(packets))) <==> HasNamedProbe(packets, mac)
  {
    DistinctMember(Keys(SsidPairs(packets)), mac);
    SsidPairsKeys(packets, mac);
  }

  /** `p` is a probe request from `mac` whose first named SSID element reads `ssid`. */
  predicate ProbedWith(p: Packet, mac: string, ssid: string) {
    p.probeRequest && p.addr2 == mac && FirstSsid(p.elements) == Some(ssid)
  }

  /** Some packet of `packets` is a probe request from `mac` whose first named SSID reads `ssid`. */
  predicate HasProbeWith(packets: seq<Packet>, mac: string, ssid: string) {
    exists i :: 0 <= i < |packets| && ProbedWith(packets[i], mac, ssid)
  }

  lemma HasProbeWithSnoc(packets: seq<Packet>, mac: string, ssid: string)
    requires packets != []
    ensures HasProbeWith(packets, mac, ssid) <==>
      HasProbeWith(packets[..|packets| - 1], mac, ssid) || ProbedWith(packets[|packets| - 1], mac, ssid)
  {
    var init := packets[..|packets| - 1];
    if HasProbeWith(init, mac, ssid) {
      var i :| 0 <= i < |init| && ProbedWith(init[i], mac, ssid);
      assert packets[i] == init[i];
    }
    if HasProbeWith(packets, mac, ssid) {
      var i :| 0 <= i < |packets| && ProbedWith(packets[i], mac, ssid);
      if i < |init| {
        assert packets[i] == init[i];
      }
    }
  }

  /** The loop adds the pair (`mac`, `ssid`) iff some probe request from `mac` names `ssid` first. */
  lemma {:induction false} SsidPairsMember(packets: seq<Packet>, mac: string, ssid: string)
    ensures (mac, ssid) in SsidPairs(packets) <==> HasProbeWith(packets, mac, ssid)
    decreases |packets|
  {
    if packets != [] {
      var init := packets[..|packets| - 1];
      SsidPairsMember(init, mac, ssid);
      HasProbeWithSnoc(packets, mac, ssid);
    }
  }

  /** `ssid_map[mac]` holds exactly the SSIDs that `mac`'s probe requests named first. */
  lemma SsidSetExactly(packets: seq<Packet>, mac: string, ssid: string)
    ensures ssid in SsidSet(SsidPairs(packets), mac) <==> HasProbeWith(packets, mac, ssid)
  {
    SelectMember(SsidPairs(packets), mac, ssid);
    SsidPairsMember(packets, mac, ssid);
  }

  /** `ssid_map` after the additions `pairs`, built the way the loop builds it. */
  ghost function SsidMap(pairs: seq<(string, string)>): map<string, set<string>> {
    if pairs == [] then map[]
    else
      var (mac, ssid) := pairs[|pairs| - 1];
      var m := SsidMap(pairs[..|pairs| - 1]);
      m[mac := (if mac in m then m[mac] else {}) + {ssid}]
  }

  /** `ssid_map` has a key for every MAC that added an SSID and holds the SSIDs it added. */
  lemma {:induction false} SsidMapMeaning(pairs: seq<(string, string)>)
    ensures forall s :: s in SsidMap(pairs) <==> s in Keys(pairs)
    ensures forall s :: s in SsidMap(pairs) ==> SsidMap(pairs)[s] == SsidSet(pairs, s)
    decreases |pairs|
  {
    if pairs != [] {
      var init := pairs[..|pairs| - 1];
      var (mac, ssid) := pairs[|pairs| - 1];
      SsidMapMeaning(init);
      assert pairs == init + [(mac, ssid)];
      KeysSnoc(init, (mac, ssid));
      forall s | s in SsidMap(pairs)
        ensures SsidMap(pairs)[s] == SsidSet(pairs, s)
      {
        SelectSnoc(init, (mac, ssid), s);
        if s == mac && mac !in SsidMap(init) {
          SelectNonEmpty(init, mac);
        }
      }
    }
  }

  lemma SsidMapNext(pairs: seq<(string, string)>, mac: string, ssid: string)
    ensures var m := SsidMap(pairs);
      SsidMap(pairs + [(mac, ssid)]) == m[mac := (if mac in m then m[mac] else {}) + {ssid}]
  {
    assert (pairs + [(mac, ssid)])[..|pairs|] == pairs;
  }

  lemma OrderNext(pairs: seq<(string, string)>, mac: string, ssid: string)
    ensures Distinct(Keys(pairs + [(mac, ssid)])) ==
      if mac in SsidMap(pairs) then Distinct(Keys(pairs)) else Distinct(Keys(pairs)) + [mac]
  {
    SsidMapMeaning(pairs);
    KeysSnoc(pairs, (mac, ssid));
    DistinctSnoc(Keys(pairs), mac);
  }

  /** One addition, as the loop body makes it to `order` and `ssid_map`. */
  lemma MapStep(pairs: seq<(string, string)>, mac: string, ssid: string)
    ensures var m := SsidMap(pairs);
      && SsidMap(pairs + [(mac, ssid)]) == m[mac := (if mac in m then m[mac] else {}) + {ssid}]
      && Distinct(Keys(pairs + [(mac, ssid)])) ==
           if mac !in m then Distinct(Keys(pairs)) + [mac] else Distinct(Keys(pairs))
  {
    SsidMapNext(pairs, mac, ssid);
    OrderNext(pairs, mac, ssid);
  }

  /** Every MAC in first-seen order has its entry in `ssid_map`, holding the SSIDs it added. */
  lemma OrderedSets(pairs: seq<(string, string)>)
    ensures forall k :: 0 <= k < |Distinct(Keys(pairs))| ==>
      && Distinct(Keys(pairs))[k] in SsidMap(pairs)
      && SsidMap(pairs)[Distinct(Keys(pairs))[k]] == SsidSet(pairs, Distinct(Keys(pairs))[k])
  {
    SsidMapMeaning(pairs);
    var order := Distinct(Keys(pairs));
    forall k | 0 <= k < |order|
      ensures order[k] in SsidMap(pairs)
    {
      DistinctMember(Keys(pairs), order[k]);
    }
  }

  /** The inner `while` over a probe request's elements: the first named SSID, if any. */
  method ScanElements(elements: seq<Element>) returns (found: Option<string>)
    ensures found == FirstSsid(elements)
  {
    var k := 0;
    while k < |elements|
      invariant 0 <= k <= |elements|
      invariant FirstSsid(elements) == FirstSsid(elements[k..])
    {
      assert elements[k..][1..] == elements[k + 1..];
      if elements[k].id == 0 && elements[k].info != [] {
        return Some(DecodeIgnore(elements[k].info));
      }
      k := k + 1;
    }
    return None;
  }

  /** `ssid_map[mac].add(ssid)` on the `defaultdict`: a new MAC also becomes the last key in insertion order. */
  method AddSsid(order: seq<string>, ssidMap: map<string, set<string>>, mac: string, ssid: string, ghost pairs: seq<(string, string)>)
    returns (order': seq<string>, ssidMap': map<string, set<string>>)
    requires order == Distinct(Keys(pairs)) && ssidMap == SsidMap(pairs)
    ensures order' == Distinct(Keys(pairs + [(mac, ssid)])) && ssidMap' == SsidMap(pairs + [(mac, ssid)])
    ensures mac in ssidMap' && ssid in ssidMap'[mac]
  {
    MapStep(pairs, mac, ssid);
    order' := if mac in ssidMap then order else order + [mac];
    ssidMap' := ssidMap[mac := (if mac in ssidMap then ssidMap[mac] else {}) + {ssid}];
  }

  /** The packet loop and the `macs`/`ssids` columns: one set per MAC that contributed, in first-seen order. */
  method BuildSsidMap(packets: seq<Packet>) returns (macs: seq<string>, ssids: seq<set<string>>)
    ensures macs == Distinct(Keys(SsidPairs(packets)))
    ensures |ssids| == |macs|
    ensures forall i :: 0 <= i < |macs| ==> ssids[i] == SsidSet(SsidPairs(packets), macs[i])
  {
    var order: seq<string> := [];
    var ssidMap: map<string, set<string>> := map[];
    ghost var pairs: seq<(string, string)> := [];
    var i := 0;
    while i < |packets|
      invariant 0 <= i <= |packets|
      invariant pairs == SsidPairs(packets[..i])
      invariant order == Distinct(Keys(pairs)) && ssidMap == SsidMap(pairs)
    {
      SsidPairsNext(packets, i);
      var pkt := packets[i];
      if pkt.probeRequest {
        var mac := pkt.addr2;
        var found := ScanElements(pkt.elements);
        if found.Some? {
          var ssid := found.value;
          order, ssidMap := AddSsid(order, ssidMap, mac, ssid, pairs);
          pairs := pairs + [(mac, ssid)];
        }
      }
      i := i + 1;
    }
    assert packets[..i] == packets;
    OrderedSets(pairs);
    macs := order;
    ssids := SetsInOrder(order, ssidMap);
  }

  /** The `ssids` column: the set stored for each MAC, in the order of `order`. */
  function SetsInOrder(order: seq<string>, ssidMap: map<string, set<string>>): (r: seq<set<string>>)
    requires forall k :: 0 <= k < |order| ==> order[k] in ssidMap
    ensures |r| == |order| && forall k :: 0 <= k < |order| ==> r[k] == ssidMap[order[k]]
  {
    seq(|order|, k requires 0 <= k < |order| => ssidMap[order[k]])
  }

  /** `len(a & b) / len(a | b) if a | b else 0`. */
  function Similarity(a: set<string>, b: set<string>): (r: real)
    ensures 0.0 <= r <= 1.0
    ensures r == 1.0 <==> a == b && a != {}
    ensures r == 0.0 <==> a * b == {}
  {
    if a + b != {} then
      SsidSetsTshark.UnionCovers(a, b);
      SsidSetsTshark.RatioBounds(|a * b|, |a + b|);
      |a * b| as real / |a + b| as real
    else 0.0
  }

  /** The two variants agree except on two empty sets, which are similar here (0) and identical there (1). */
  lemma SimilarityVersusJaccard(a: set<string>, b: set<string>)
    ensures a != {} || b != {} ==> Similarity(a, b) == SsidSetsTshark.JaccardIndex(a, b)
    ensures a == {} && b == {} ==> Similarity(a, b) == 0.0 && SsidSetsTshark.JaccardIndex(a, b) == 1.0
  {
    if a != {} || b != {} {
      SsidSetsTshark.JaccardIsRatio(a, b);
      assert a + b != {};
    }
  }

  lemma SimilaritySymmetric(a: set<string>, b: set<string>)
    ensures Similarity(a, b) == Similarity(b, a)
  {
    assert a * b == b * a && a + b == b + a;
  }

  /** The nested loops that build `matrix`, one row at a time. */
  method SimilarityMatrix(ssids: seq<set<string>>) returns (matrix: seq<seq<real>>)
    ensures |matrix| == |ssids|
    ensures forall i :: 0 <= i < |ssids| ==> |matrix[i]| == |ssids|
    ensures forall i, j :: 0 <= i < |ssids| && 0 <= j < |ssids| ==> matrix[i][j] == Similarity(ssids[i], ssids[j])
  {
    matrix := [];
    var i := 0;
    while i < |ssids|
      invariant 0 <= i <= |ssids|
      invariant |matrix| == i
      invariant forall r :: 0 <= r < i ==> |matrix[r]| == |ssids|
      invariant forall r, j :: 0 <= r < i && 0 <= j < |ssids| ==> matrix[r][j] == Similarity(ssids[r], ssids[j])
    {
      var row: seq<real> := [];
      var j := 0;
      while j < |ssids|
        invariant 0 <= j <= |ssids|
        invariant |row| == j
        invariant forall c :: 0 <= c < j ==> row[c] == Similarity(ssids[i], ssids[c])
      {
        var a, b := ssids[i], ssids[j];
        var sim := if a + b != {} then |a * b| as real / |a + b| as real else 0.0;
        row := row + [sim];
        j := j + 1;
      }
      matrix := matrix + [row];
      i := i + 1;
    }
  }

  /** Over sets that are all non-empty, as the stored ones are, the matrix is symmetric, in [0, 1] and 1 on the diagonal. */
  lemma SimilarityMatrixShape(ssids: seq<set<string>>, matrix: seq<seq<real>>)
    requires |matrix| == |ssids|
    requires forall i :: 0 <= i < |ssids| ==> |matrix[i]| == |ssids|
    requires forall i, j :: 0 <= i < |ssids| && 0 <= j < |ssids| ==> matrix[i][j] == Similarity(ssids[i], ssids[j])
    requires forall i :: 0 <= i < |ssids| ==> ssids[i] != {}
    ensures forall i :: 0 <= i < |ssids| ==> matrix[i][i] == 1.0
    ensures forall i, j :: 0 <= i < |ssids| && 0 <= j < |ssids| ==> 0.0 <= matrix[i][j] <= 1.0
    ensures forall i, j :: 0 <= i < |ssids| && 0 <= j < |ssids| ==> matrix[i][j] == matrix[j][i]
  {
    forall i | 0 <= i < |ssids|
      ensures matrix[i][i] == 1.0
    {
      assert matrix[i][i] == Similarity(ssids[i], ssids[i]);
    }
    forall i, j | 0 <= i < |ssids| && 0 <= j < |ssids|
      ensures 0.0 <= matrix[i][j] <= 1.0
    {
      assert matrix[i][j] == Similarity(ssids[i], ssids[j]);
    }
    forall i, j | 0 <= i < |ssids| && 0 <= j < |ssids|
      ensures matrix[i][j] == matrix[j][i]
    {
      SimilaritySymmetric(ssids[i], ssids[j]);
    }
  }

  /** `X = 1 - np.array(matrix)`: the distances DBSCAN is given. */
  function Distances(matrix: seq<seq<real>>): (d: seq<seq<real>>)
    ensures |d| == |matrix| && forall i :: 0 <= i < |matrix| ==> |d[i]| == |matrix[i]|
    ensures forall i, j :: 0 <= i < |matrix| && 0 <= j < |matrix[i]| ==> d[i][j] + matrix[i][j] == 1.0
  {
    seq(|matrix|, i requires 0 <= i < |matrix| => seq(|matrix[i]|, j requires 0 <= j < |matrix[i]| => 1.0 - matrix[i][j]))
  }

  /**
   * The distances DBSCAN is given, over the stored (non-empty) sets: square,
   * symmetric, zero on the diagonal and in [0, 1], and 0 exactly for two
   * equal sets.
   */
  lemma DistancesShape(ssids: seq<set<string>>, matrix: seq<seq<real>>)
    requires |matrix| == |ssids|
    requires forall i :: 0 <= i < |ssids| ==> |matrix[i]| == |ssids|
    requires forall i, j :: 0 <= i < |ssids| && 0 <= j < |ssids| ==> matrix[i][j] == Similarity(ssids[i], ssids[j])
    requires forall i :: 0 <= i < |ssids| ==> ssids[i] != {}
    ensures var d := Distances(matrix);
      && |d| == |ssids|
      && (forall i :: 0 <= i < |ssids| ==> |d[i]| == |ssids| && d[i][i] == 0.0)
      && (forall i, j :: 0 <= i < |ssids| && 0 <= j < |ssids| ==> 0.0 <= d[i][j] <= 1.0 && d[i][j] == d[j][i])
      && (forall i, j :: 0 <= i < |ssids| && 0 <= j < |ssids| ==> (d[i][j] == 0.0 <==> ssids[i] == ssids[j]))
  {
    SimilarityMatrixShape(ssids, matrix);
    var d := Distances(matrix);
    forall i, j | 0 <= i < |ssids| && 0 <= j < |ssids|
      ensures d[i][j] == 0.0 <==> ssids[i] == ssids[j]
    {
      assert d[i][j] + Similarity(ssids[i], ssids[j]) == 1.0;
    }
  }
}
