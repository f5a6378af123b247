/**
 * WiFi/MACRandomization/Fingerprint_Clustering/tshark_Fingerprint_Clustering.py:
 * each probe-request line of tshark's output becomes a (MAC, blob) record, the
 * blob being every field after the MAC run together; MACs whose blobs hash
 * alike form a group, and groups of more than one MAC are numbered as clusters.
 */
module FingerprintTshark {
  import opened Common
  import opened Text
  import opened Utf8
  import opened Grouping
  import opened TsharkOutput

  /** `hashlib.md5(data).hexdigest()`, taken as given. */
  type Digest = seq<byte> -> string

  /** What one output line contributes: nothing when it has fewer than two tab-separated fields. */
  function RecordOf(line: string): (r: Option<(string, string)>)
    ensures r.None? <==> '\t' !in line
  {
    var parts := Split(line, '\t');
    SplitLength(line, '\t');
    OccurrencesZero(line, '\t');
    if |parts| < 2 then None else Some((parts[0], Join(parts[1..], "")))
  }

  /** A line is its MAC, a tab, and the rest; the record keeps the MAC and the rest without its tabs. */
  lemma RecordOfFields(mac: string, rest: string)
    requires '\t' !in mac
    ensures RecordOf(mac + "\t" + rest) == Some((mac, Without(rest, '\t')))
  {
    SplitAtFirst(mac, rest, '\t');
    var parts := Split(mac + "\t" + rest, '\t');
    assert parts[1..] == Split(rest, '\t');
    JoinSplitWithout(rest, '\t');
  }

  /** `records` after the loop over `lines`: one record per line with a tab, in line order. */
  function Records(lines: seq<string>): seq<(string, string)>
    decreases |lines|
  {
    if lines == [] then []
    else
      var tail := match RecordOf(lines[|lines| - 1]) case None => [] case Some(r) => [r];
      Records(lines[..|lines| - 1]) + tail
  }

  lemma RecordsNext(lines: seq<string>, i: nat)
    requires i < |lines|
    ensures Records(lines[..i + 1]) ==
      Records(lines[..i]) + match RecordOf(lines[i]) case None => [] case Some(r) => [r]
  {
    assert lines[..i + 1][..i] == lines[..i];
  }

  /** Reading two stretches of output one after the other gives their records one after the other. */
  lemma {:induction false} RecordsAppend(a: seq<string>, b: seq<string>)
    ensures Records(a + b) == Records(a) + Records(b)
    decreases |b|
  {
    if b == [] {
      assert a + b == a;
    } else {
      var b' := b[..|b| - 1];
      RecordsAppend(a, b');
      assert (a + b)[..|a + b| - 1] == a + b';
      assert (a + b)[|a + b| - 1] == b[|b| - 1];
    }
  }

  /** Every line holding a tab gives exactly one record; the others give none. */
  lemma {:induction false} RecordsOnePerTabLine(lines: seq<string>)
    ensures |Records(lines)| == FieldLineCount(lines)
    decreases |lines|
  {
    if lines != [] {
      RecordsOnePerTabLine(lines[..|lines| - 1]);
    }
  }

  /** The loop of `extract_tshark_fields` over the lines of the output. */
  method ExtractRecords(lines: seq<string>) returns (records: seq<(string, string)>)
    ensures records == Records(lines)
  {
    records := [];
    var i := 0;
    while i < |lines|
      invariant 0 <= i <= |lines|
      invariant records == Records(lines[..i])
    {
      RecordsNext(lines, i);
      var parts := Split(lines[i], '\t');
      if |parts| >= 2 {
        var mac := parts[0];
        var blob := Join(parts[1..], "");
        records := records + [(mac, blob)];
      }
      i := i + 1;
    }
    assert lines[..i] == lines;
  }

  /** `extract_tshark_fields` on the text tshark printed; blank output gives no records. */
  method ExtractFields(stdout: string) returns (records: seq<(string, string)>)
    ensures records == Records(OutputLines(stdout))
    ensures Strip(stdout) == "" ==> records == []
  {
    records := ExtractRecords(OutputLines(stdout));
    if Strip(stdout) == "" {
      assert OutputLines(stdout) == [""];
      assert Records(OutputLines(stdout)) == Records([]) + [];
    }
  }

  /** The group key of a record: the hex MD5 digest of the UTF-8 bytes of its blob. */
  function Fingerprint(md5: Digest, blob: string): string {
    md5(Encode(blob))
  }

  /** The (fingerprint, MAC) additions the grouping loop makes, in record order. */
  function FingerprintPairs(md5: Digest, records: seq<(string, string)>): (r: seq<(string, string)>)
    ensures |r| == |records|
    ensures forall i :: 0 <= i < |records| ==> r[i] == (Fingerprint(md5, records[i].1), records[i].0)
    decreases |records|
  {
    if records == [] then []
    else
      var last := records[|records| - 1];
      FingerprintPairs(md5, records[..|records| - 1]) + [(Fingerprint(md5, last.1), last.0)]
  }

  /** `fingerprints[fp]` after the loop: the MACs of that fingerprint, each once, in first-seen order. */
  function GroupMacs(pairs: seq<(string, string)>, fp: string): seq<string> {
    Distinct(Select(pairs, fp))
  }

  /** A group holds a MAC iff some record of that MAC has that fingerprint, and holds it once. */
  lemma GroupMacsExactly(md5: Digest, records: seq<(string, string)>, fp: string, mac: string)
    ensures NoDuplicates(GroupMacs(FingerprintPairs(md5, records), fp))
    ensures mac in GroupMacs(FingerprintPairs(md5, records), fp) <==>
      exists i :: 0 <= i < |records| && records[i].0 == mac && Fingerprint(md5, records[i].1) == fp
  {
    var pairs := FingerprintPairs(md5, records);
    DistinctMember(Select(pairs, fp), mac);
    SelectMember(pairs, fp, mac);
    if (fp, mac) in pairs {
      var i :| 0 <= i < |pairs| && pairs[i] == (fp, mac);
      assert records[i].0 == mac && Fingerprint(md5, records[i].1) == fp;
    }
    if exists i :: 0 <= i < |records| && records[i].0 == mac && Fingerprint(md5, records[i].1) == fp {
      var i :| 0 <= i < |records| && records[i].0 == mac && Fingerprint(md5, records[i].1) == fp;
      assert pairs[i] == (fp, mac);
    }
  }

  /** Records with equal blobs land in the same group. */
  lemma SameBlobSameGroup(md5: Digest, records: seq<(string, string)>, i: nat, j: nat)
    requires i < |records| && j < |records| && records[i].1 == records[j].1
    ensures var g := GroupMacs(FingerprintPairs(md5, records), Fingerprint(md5, records[i].1));
      records[i].0 in g && records[j].0 in g
  {
    var fp := Fingerprint(md5, records[i].1);
    GroupMacsExactly(md5, records, fp, records[i].0);
    GroupMacsExactly(md5, records, fp, records[j].0);
  }

  /** `fingerprints` after the additions `pairs`, built the way the loop builds it. */
  ghost function GroupDict(pairs: seq<(string, string)>): map<string, seq<string>> {
    if pairs == [] then map[]
    else
      var (fp, mac) := pairs[|pairs| - 1];
      var m := GroupDict(pairs[..|pairs| - 1]);
      var macs := if fp in m then m[fp] else [];
      m[fp := if mac in macs then macs else macs + [mac]]
  }

  /** `fingerprints` has a key per fingerprint seen, holding that fingerprint's group. */
  lemma {:induction false} GroupDictMeaning(pairs: seq<(string, string)>)
    ensures forall fp :: fp in GroupDict(pairs) <==> fp in Keys(pairs)
    ensures forall fp :: fp in GroupDict(pairs) ==> GroupDict(pairs)[fp] == GroupMacs(pairs, fp)
    decreases |pairs|
  {
    if pairs != [] {
      var init := pairs[..|pairs| - 1];
      var (fp, mac) := pairs[|pairs| - 1];
      GroupDictMeaning(init);
      assert pairs == init + [(fp, mac)];
      KeysSnoc(init, (fp, mac));
      forall f | f in GroupDict(pairs)
        ensures GroupDict(pairs)[f] == GroupMacs(pairs, f)
      {
        GroupMacsSnoc(init, fp, mac, f);
        if f == fp && fp !in GroupDict(init) {
          SelectNonEmpty(init, fp);
        }
      }
    }
  }

  /** One more record of `fp` appends its MAC to that group unless already there; other groups stay. */
  lemma GroupMacsSnoc(pairs: seq<(string, string)>, fp: string, mac: string, f: string)
    ensures GroupMacs(pairs + [(fp, mac)], f) ==
      if f != fp || mac in GroupMacs(pairs, f) then GroupMacs(pairs, f) else GroupMacs(pairs, f) + [mac]
  {
    SelectSnoc(pairs, (fp, mac), f);
    if f == fp {
      var sel := Select(pairs, fp);
      assert Select(pairs + [(fp, mac)], f) == sel + [mac];
      DistinctSnoc(sel, mac);
      DistinctMember(sel, mac);
      assert GroupMacs(pairs + [(fp, mac)], f) == Distinct(sel + [mac]);
    } else {
      assert Select(pairs + [(fp, mac)], f) == Select(pairs, f) + [];
      assert Select(pairs, f) + [] == Select(pairs, f);
    }
  }

  lemma GroupDictNext(pairs: seq<(string, string)>, fp: string, mac: string)
    ensures var m := GroupDict(pairs);
      var macs := if fp in m then m[fp] else [];
      GroupDict(pairs + [(fp, mac)]) == m[fp := if mac in macs then macs else macs + [mac]]
  {
    assert (pairs + [(fp, mac)])[..|pairs|] == pairs;
  }

  lemma OrderNext(pairs: seq<(string, string)>, fp: string, mac: string)
    ensures Distinct(Keys(pairs + [(fp, mac)])) ==
      if fp in GroupDict(pairs) then Distinct(Keys(pairs)) else Distinct(Keys(pairs)) + [fp]
  {
    GroupDictMeaning(pairs);
    KeysSnoc(pairs, (fp, mac));
    DistinctSnoc(Keys(pairs), fp);
  }

  /** The first loop of `cluster_by_fingerprint`: the `fingerprints` dict, its keys in insertion order. */
  method GroupByFingerprint(md5: Digest, records: seq<(string, string)>)
    returns (order: seq<string>, fingerprints: map<string, seq<string>>)
    ensures order == Distinct(Keys(FingerprintPairs(md5, records)))
    ensures forall fp :: fp in fingerprints <==> fp in order
    ensures forall fp :: fp in fingerprints ==> fingerprints[fp] == GroupMacs(FingerprintPairs(md5, records), fp)
  {
    order := [];
    fingerprints := map[];
    ghost var pairs: seq<(string, string)> := [];
    var i := 0;
    while i < |records|
      invariant 0 <= i <= |records|
      invariant pairs == FingerprintPairs(md5, records[..i])
      invariant order == Distinct(Keys(pairs)) && fingerprints == GroupDict(pairs)
    {
      assert records[..i + 1][..i] == records[..i];
      var (mac, blob) := records[i];
      var fp := md5(Encode(blob));
      GroupDictNext(pairs, fp, mac);
      OrderNext(pairs, fp, mac);
      var macs := if fp in fingerprints then fingerprints[fp] else [];
      if fp !in fingerprints {
        order := order + [fp];
      }
      if mac !in macs {
        macs := macs + [mac];
      }
      fingerprints := fingerprints[fp := macs];
      pairs := pairs + [(fp, mac)];
      i := i + 1;
    }
    assert records[..i] == records;
    GroupDictMeaning(pairs);
    forall fp
      ensures fp in fingerprints <==> fp in order
    {
      DistinctMember(Keys(pairs), fp);
    }
  }

  /** One row of `cluster_data`. */
  datatype Cluster = Cluster(id: nat, macs: seq<string>)

  /** `cluster_data` after the second loop has walked the groups of `fps` in order. */
  function ClustersFrom(pairs: seq<(string, string)>, fps: seq<string>): (r: seq<Cluster>)
    ensures |r| <= |fps|
    ensures forall k :: 0 <= k < |r| ==> r[k].id == k + 1 && |r[k].macs| > 1
    decreases |fps|
  {
    if fps == [] then []
    else
      var rest := ClustersFrom(pairs, fps[..|fps| - 1]);
      var macs := GroupMacs(pairs, fps[|fps| - 1]);
      if |macs| > 1 then rest + [Cluster(|rest| + 1, macs)] else rest
  }

  /** The clusters of the whole capture, in the order their fingerprints were first seen. */
  function Clusters(pairs: seq<(string, string)>): seq<Cluster> {
    ClustersFrom(pairs, Distinct(Keys(pairs)))
  }

  /** Some cluster of `cs` has the MAC list `macs`. */
  predicate HasCluster(cs: seq<Cluster>, macs: seq<string>) {
    exists k :: 0 <= k < |cs| && cs[k].macs == macs
  }

  /** Some fingerprint of `fps` has the group `macs`. */
  predicate HasGroup(pairs: seq<(string, string)>, fps: seq<string>, macs: seq<string>) {
    exists fp :: fp in fps && GroupMacs(pairs, fp) == macs
  }

  lemma HasClusterSnoc(cs: seq<Cluster>, c: Cluster, macs: seq<string>)
    ensures HasCluster(cs + [c], macs) <==> HasCluster(cs, macs) || c.macs == macs
  {
    if HasCluster(cs, macs) {
      var k :| 0 <= k < |cs| && cs[k].macs == macs;
      assert (cs + [c])[k] == cs[k];
    }
    if c.macs == macs {
      assert (cs + [c])[|cs|] == c;
    }
  }

  lemma HasGroupSnoc(pairs: seq<(string, string)>, fps: seq<string>, fp: string, macs: seq<string>)
    ensures HasGroup(pairs, fps + [fp], macs) <==> HasGroup(pairs, fps, macs) || GroupMacs(pairs, fp) == macs
  {
    if HasGroup(pairs, fps + [fp], macs) {
      var f :| f in fps + [fp] && GroupMacs(pairs, f) == macs;
      assert f in fps || f == fp;
    }
  }

  /** A MAC list is a cluster iff it is the group of a walked fingerprint and has more than one MAC. */
  lemma {:induction false} ClustersFromExactly(pairs: seq<(string, string)>, fps: seq<string>, macs: seq<string>)
    ensures HasCluster(ClustersFrom(pairs, fps), macs) <==> |macs| > 1 && HasGroup(pairs, fps, macs)
    decreases |fps|
  {
    if fps != [] {
      var init := fps[..|fps| - 1];
      var fp := fps[|fps| - 1];
      var rest := ClustersFrom(pairs, init);
      var g := GroupMacs(pairs, fp);
      ClustersFromExactly(pairs, init, macs);
      assert fps == init + [fp];
      HasGroupSnoc(pairs, init, fp, macs);
      if |g| > 1 {
        HasClusterSnoc(rest, Cluster(|rest| + 1, g), macs);
      }
    }
  }

  /** Every group of more than one MAC becomes a cluster, and every cluster is such a group. */
  lemma ClustersExactly(pairs: seq<(string, string)>, macs: seq<string>)
    ensures HasCluster(Clusters(pairs), macs) <==> |macs| > 1 && HasGroup(pairs, Keys(pairs), macs)
  {
    ClustersFromExactly(pairs, Distinct(Keys(pairs)), macs);
    if HasGroup(pairs, Keys(pairs), macs) {
      var fp :| fp in Keys(pairs) && GroupMacs(pairs, fp) == macs;
      DistinctMember(Keys(pairs), fp);
    }
    if HasGroup(pairs, Distinct(Keys(pairs)), macs) {
      var fp :| fp in Distinct(Keys(pairs)) && GroupMacs(pairs, fp) == macs;
      DistinctMember(Keys(pairs), fp);
    }
  }

  /** "No multi-MAC clusters found." iff every fingerprint was seen with one MAC only. */
  lemma NoClustersIffSingleMacs(pairs: seq<(string, string)>)
    ensures Clusters(pairs) == [] <==> forall i :: 0 <= i < |pairs| ==> |GroupMacs(pairs, pairs[i].0)| <= 1
  {
    if Clusters(pairs) != [] {
      var g := Clusters(pairs)[0].macs;
      ClustersExactly(pairs, g);
      assert Clusters(pairs)[0].macs == g;
      var fp :| fp in Keys(pairs) && GroupMacs(pairs, fp) == g;
      var i :| 0 <= i < |pairs| && Keys(pairs)[i] == fp;
      assert |GroupMacs(pairs, pairs[i].0)| > 1;
    } else {
      forall i | 0 <= i < |pairs|
        ensures |GroupMacs(pairs, pairs[i].0)| <= 1
      {
        ClustersExactly(pairs, GroupMacs(pairs, pairs[i].0));
        assert Keys(pairs)[i] == pairs[i].0;
        assert HasGroup(pairs, Keys(pairs), GroupMacs(pairs, pairs[i].0));
      }
    }
  }

  /** The second loop: numbers the groups of more than one MAC, `cluster_id` counting up from 1. */
  method NumberClusters(order: seq<string>, fingerprints: map<string, seq<string>>, ghost pairs: seq<(string, string)>)
    returns (clusterData: seq<Cluster>)
    requires forall fp :: fp in order ==> fp in fingerprints && fingerprints[fp] == GroupMacs(pairs, fp)
    ensures clusterData == ClustersFrom(pairs, order)
  {
    clusterData := [];
    var clusterId := 1;
    var k := 0;
    while k < |order|
      invariant 0 <= k <= |order|
      invariant clusterData == ClustersFrom(pairs, order[..k])
      invariant clusterId == |clusterData| + 1
    {
      assert order[..k + 1][..k] == order[..k];
      var macs := fingerprints[order[k]];
      if |macs| > 1 {
        clusterData := clusterData + [Cluster(clusterId, macs)];
        clusterId := clusterId + 1;
      }
      k := k + 1;
    }
    assert order[..k] == order;
  }

  /** `cluster_by_fingerprint`: the clusters, and whether the CSV file is written. */
  method ClusterByFingerprint(md5: Digest, records: seq<(string, string)>) returns (clusterData: seq<Cluster>, written: bool)
    ensures clusterData == Clusters(FingerprintPairs(md5, records))
    ensures written <==> clusterData != []
  {
    var order, fingerprints := GroupByFingerprint(md5, records);
    clusterData := NumberClusters(order, fingerprints, FingerprintPairs(md5, records));
    written := clusterData != [];
  }
}
