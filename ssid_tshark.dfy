/**
 * WiFi/MACRandomization/SSID_Clustering/tshark_SSID_List_Clustering.py: the
 * probe requests tshark extracted are grouped into one SSID set per lower-cased
 * source MAC, and every pair of sets is compared by its Jaccard index.
 */
module SsidSetsTshark {
  import opened Common
  import opened Text
  import opened Grouping

  /** One row of the probe-request table: `mac` and `ssid` as `read_csv` left them (NaN is `None`). */
  datatype ProbeRow = ProbeRow(mac: Option<string>, ssid: Option<string>)

  /** The rows `dropna(subset=["mac"])` keeps, as (lower-cased MAC, SSID cell) in table order. */
  function Observed(rows: seq<ProbeRow>): (r: seq<(string, Option<string>)>)
    ensures |r| <= |rows|
  {
    if rows == [] then []
    else
      var last := rows[|rows| - 1];
      Observed(rows[..|rows| - 1]) + (if last.mac.Some? then [(Lower(last.mac.value), last.ssid)] else [])
  }

  /** An observed pair comes from a row with a present MAC, and every such row gives one. */
  lemma {:induction false} ObservedMembers(rows: seq<ProbeRow>)
    ensures forall p :: p in Observed(rows) <==> exists row :: row in rows && row.mac.Some? && p == (Lower(row.mac.value), row.ssid)
    decreases |rows|
  {
    if rows != [] {
      var last := rows[|rows| - 1];
      ObservedMembers(rows[..|rows| - 1]);
      assert rows == rows[..|rows| - 1] + [last];
    }
  }

  lemma ObservedNext(rows: seq<ProbeRow>, i: nat)
    requires i < |rows|
    ensures Observed(rows[..i + 1]) ==
      Observed(rows[..i]) + (if rows[i].mac.Some? then [(Lower(rows[i].mac.value), rows[i].ssid)] else [])
  {
    assert rows[..i + 1][..i] == rows[..i];
  }

  /** The SSIDs a set keeps from its cells: present (`pd.notna`) and not "". */
  function SsidSetOf(cells: seq<Option<string>>): set<string> {
    set c | c in cells && c.Some? && c.value != "" :: c.value
  }

  /** `ssid_dict[mac]` after the observed rows `pairs`. */
  function SsidSet(pairs: seq<(string, Option<string>)>, mac: string): set<string> {
    SsidSetOf(Select(pairs, mac))
  }

  /** The `mac` column of the result: each lower-cased MAC once, in first-seen order. */
  function MacColumn(rows: seq<ProbeRow>): seq<string> {
    Distinct(Keys(Observed(rows)))
  }

  /** A MAC has a row iff some row with a present MAC lower-cases to it. */
  lemma MacColumnExactly(rows: seq<ProbeRow>, mac: string)
    ensures mac in MacColumn(rows) <==> exists row :: row in rows && row.mac.Some? && Lower(row.mac.value) == mac
  {
    var pairs := Observed(rows);
    ObservedMembers(rows);
    DistinctMember(Keys(pairs), mac);
    if mac in Keys(pairs) {
      var i :| 0 <= i < |pairs| && Keys(pairs)[i] == mac;
      assert pairs[i] in pairs;
    }
    if exists row :: row in rows && row.mac.Some? && Lower(row.mac.value) == mac {
      var row :| row in rows && row.mac.Some? && Lower(row.mac.value) == mac;
      var p := (mac, row.ssid);
      assert p in pairs;
      var i :| 0 <= i < |pairs| && pairs[i] == p;
      assert Keys(pairs)[i] == mac;
    }
  }

  /** An SSID is in a MAC's set iff it is non-empty and some row pairs it with that MAC. */
  lemma SsidSetExactly(rows: seq<ProbeRow>, mac: string, ssid: string)
    ensures ssid in SsidSet(Observed(rows), mac) <==>
      ssid != "" && exists row :: row in rows && row.mac.Some? && Lower(row.mac.value) == mac && row.ssid == Some(ssid)
  {
    var pairs := Observed(rows);
    ObservedMembers(rows);
    SelectMember(pairs, mac, Some(ssid));
    if exists row :: row in rows && row.mac.Some? && Lower(row.mac.value) == mac && row.ssid == Some(ssid) {
      var row :| row in rows && row.mac.Some? && Lower(row.mac.value) == mac && row.ssid == Some(ssid);
      assert (mac, Some(ssid)) in pairs;
    }
  }

  /** A MAC seen only with missing or empty SSIDs still has a row, with the empty set. */
  lemma SilentMacListed(rows: seq<ProbeRow>, mac: string)
    requires exists row :: row in rows && row.mac.Some? && Lower(row.mac.value) == mac
    requires forall row :: row in rows && row.mac.Some? && Lower(row.mac.value) == mac ==> row.ssid in {None, Some("")}
    ensures mac in MacColumn(rows)
    ensures SsidSet(Observed(rows), mac) == {}
  {
    MacColumnExactly(rows, mac);
    forall ssid | ssid in SsidSet(Observed(rows), mac)
      ensures false
    {
      SsidSetExactly(rows, mac, ssid);
    }
  }

  /** The SSIDs one cell adds to a set. */
  function CellSsids(c: Option<string>): set<string> {
    if c.Some? && c.value != "" then {c.value} else {}
  }

  lemma SsidSetOfSnoc(cells: seq<Option<string>>, c: Option<string>)
    ensures SsidSetOf(cells + [c]) == SsidSetOf(cells) + CellSsids(c)
  {
  }

  /** `ssid_dict` after the observed rows `pairs`, built the way the loop builds it. */
  ghost function SsidDict(pairs: seq<(string, Option<string>)>): map<string, set<string>> {
    if pairs == [] then map[]
    else
      var (mac, ssid) := pairs[|pairs| - 1];
      var m := SsidDict(pairs[..|pairs| - 1]);
      var m1 := if mac in m then m else m[mac := {}];
      if ssid.Some? && ssid.value != "" then m1[mac := m1[mac] + {ssid.value}] else m1
  }

  /** `ssid_dict` has a key for every observed MAC and holds that MAC's SSID set. */
  lemma {:induction false} SsidDictMeaning(pairs: seq<(string, Option<string>)>)
    ensures forall s :: s in SsidDict(pairs) <==> s in Keys(pairs)
    ensures forall s :: s in SsidDict(pairs) ==> SsidDict(pairs)[s] == SsidSet(pairs, s)
    decreases |pairs|
  {
    if pairs != [] {
      var init := pairs[..|pairs| - 1];
      var (mac, ssid) := pairs[|pairs| - 1];
      SsidDictMeaning(init);
      assert pairs == init + [(mac, ssid)];
      KeysSnoc(init, (mac, ssid));
      forall s | s in SsidDict(pairs)
        ensures SsidDict(pairs)[s] == SsidSet(pairs, s)
      {
        SelectSnoc(init, (mac, ssid), s);
        if s == mac {
          if mac !in SsidDict(init) {
            SelectNonEmpty(init, mac);
          }
          SsidSetOfSnoc(Select(init, s), ssid);
        }
      }
    }
  }

  lemma SsidDictNext(pairs: seq<(string, Option<string>)>, mac: string, ssid: Option<string>)
    ensures var m := SsidDict(pairs);
      var m1 := if mac in m then m else m[mac := {}];
      SsidDict(pairs + [(mac, ssid)]) == if ssid.Some? && ssid.value != "" then m1[mac := m1[mac] + {ssid.value}] else m1
  {
    assert (pairs + [(mac, ssid)])[..|pairs|] == pairs;
  }

  /** `order` lists the keys of `SsidDict(pairs)` in insertion order. */
  lemma OrderNext(pairs: seq<(string, Option<string>)>, mac: string, ssid: Option<string>)
    ensures Distinct(Keys(pairs + [(mac, ssid)])) ==
      if mac in SsidDict(pairs) then Distinct(Keys(pairs)) else Distinct(Keys(pairs)) + [mac]
  {
    SsidDictMeaning(pairs);
    KeysSnoc(pairs, (mac, ssid));
    DistinctSnoc(Keys(pairs), mac);
  }

  /** `build_ssid_sets`: the `mac` and `ssid_set` columns of the result. */
  method BuildSsidSets(rows: seq<ProbeRow>) returns (macs: seq<string>, ssidSets: seq<set<string>>)
    ensures macs == MacColumn(rows)
    ensures |ssidSets| == |macs|
    ensures forall i :: 0 <= i < |macs| ==> ssidSets[i] == SsidSet(Observed(rows), macs[i])
  {
    var order: seq<string> := [];
    var ssidDict: map<string, set<string>> := map[];
    ghost var pairs: seq<(string, Option<string>)> := [];
    var i := 0;
    while i < |rows|
      invariant 0 <= i <= |rows|
      invariant pairs == Observed(rows[..i])
      invariant order == Distinct(Keys(pairs)) && ssidDict == SsidDict(pairs)
    {
      ObservedNext(rows, i);
      var row := rows[i];
      if row.mac.Some? {
        var mac := Lower(row.mac.value);
        var ssid := row.ssid;
        SsidDictNext(pairs, mac, ssid);
        OrderNext(pairs, mac, ssid);
        if mac !in ssidDict {
          order := order + [mac];
          ssidDict := ssidDict[mac := {}];
        }
        if ssid.Some? && ssid.value != "" {
          ssidDict := ssidDict[mac := ssidDict[mac] + {ssid.value}];
        }
        pairs := pairs + [(mac, ssid)];
      }
      i := i + 1;
    }
    assert rows[..i] == rows;
    SsidDictMeaning(pairs);
    forall k | 0 <= k < |order|
      ensures order[k] in ssidDict
    {
      DistinctMember(Keys(pairs), order[k]);
    }
    macs := order;
    ssidSets := seq(|order|, k requires 0 <= k < |order| => ssidDict[order[k]]);
  }

  /** `jaccard_index`: 1 for two empty sets, otherwise the size of the intersection over the size of the union. */
  function JaccardIndex(a: set<string>, b: set<string>): (r: real)
    ensures 0.0 <= r <= 1.0
    ensures r == 1.0 <==> a == b
    ensures r == 0.0 <==> a * b == {} && a + b != {}
  {
    if a == {} && b == {} then 1.0
    else
      var intersection := |a * b|;
      var union := |a + b|;
      UnionCovers(a, b);
      RatioBounds(intersection, union);
      if union != 0 then intersection as real / union as real else 0.0
  }

  /** Intersection and union of two sets that are not both empty: the union is non-empty and
   *  no smaller than the intersection, and equal to it only when the sets are equal. */
  lemma UnionCovers(a: set<string>, b: set<string>)
    requires a != {} || b != {}
    ensures |a + b| > 0 && |a * b| <= |a + b|
    ensures |a * b| == |a + b| <==> a == b
  {
    if a != {} {
      var x :| x in a;
      assert x in a + b;
    } else {
      var x :| x in b;
      assert x in a + b;
    }
    assert |a + b| == |a - b| + |b - a| + |a * b| by {
      assert a + b == (a - b) + (b - a) + (a * b);
      assert (a - b) * (b - a) == {};
    }
    if |a * b| == |a + b| {
      assert |a - b| == 0 && |b - a| == 0;
      assert a - b == {} && b - a == {};
      assert forall x :: x in a ==> x in b;
      assert forall x :: x in b ==> x in a;
    }
  }

  /** A count over a larger non-zero count is a ratio in [0, 1], 1 only for equal counts and 0 only for a zero count. */
  lemma RatioBounds(p: nat, q: nat)
    requires 0 < q && p <= q
    ensures 0.0 <= p as real / q as real <= 1.0
    ensures p as real / q as real == 1.0 <==> p == q
    ensures p as real / q as real == 0.0 <==> p == 0
  {
    var r := p as real / q as real;
    assert r * q as real == p as real;
  }

  /** The `else 0` branch is never taken: whenever the sets are not both empty the result is the ratio. */
  lemma JaccardIsRatio(a: set<string>, b: set<string>)
    requires a != {} || b != {}
    ensures |a + b| != 0
    ensures JaccardIndex(a, b) == |a * b| as real / |a + b| as real
  {
    UnionCovers(a, b);
  }

  lemma JaccardSymmetric(a: set<string>, b: set<string>)
    ensures JaccardIndex(a, b) == JaccardIndex(b, a)
  {
    assert a * b == b * a && a + b == b + a;
  }

  /** The comprehension in `cluster_by_ssid`: entry (i, j) is `1 - jaccard_index(sets[i], sets[j])`. */
  function DistanceMatrix(sets: seq<set<string>>): seq<seq<real>> {
    seq(|sets|, i requires 0 <= i < |sets| => seq(|sets|, j requires 0 <= j < |sets| => 1.0 - JaccardIndex(sets[i], sets[j])))
  }

  /** The distance matrix is square, symmetric, zero on the diagonal and has entries in [0, 1]. */
  lemma DistanceMatrixShape(sets: seq<set<string>>)
    ensures var d := DistanceMatrix(sets);
      && |d| == |sets|
      && (forall i :: 0 <= i < |sets| ==> |d[i]| == |sets|)
      && (forall i :: 0 <= i < |sets| ==> d[i][i] == 0.0)
      && (forall i, j :: 0 <= i < |sets| && 0 <= j < |sets| ==> 0.0 <= d[i][j] <= 1.0 && d[i][j] == d[j][i])
  {
    forall i, j | 0 <= i < |sets| && 0 <= j < |sets|
      ensures DistanceMatrix(sets)[i][j] == DistanceMatrix(sets)[j][i]
    {
      JaccardSymmetric(sets[i], sets[j]);
    }
  }
}
