/**
 * WiFi/MACRandomization/Fingerprint_Clustering/Fingerprint_Clustering.py: every
 * probe request with information elements is keyed by the MD5 of the bytes of
 * its element layers, and each key lists the sender of every such packet.
 * Serialising a scapy layer also serialises the layers stacked on it, so the
 * bytes taken for one element are that element followed by all later ones.
 */
module FingerprintScapy {
  import opened Utf8
  import opened Grouping
  import opened SsidSetsScapy

  /** `hashlib.md5(data).hexdigest()`, taken as given. */
  type Digest = seq<byte> -> string

  /** The bytes of one element on the air: ID, length, then the information. */
  function ElementBytes(e: Element): (r: seq<byte>)
    ensures |r| == 2 + |e.info| && r[0] == e.id && r[1] == e.len && r[2..] == e.info
  {
    [e.id, e.len] + e.info
  }

  /** `bytes(elt)`: the element and the chain of elements after it. */
  function ChainBytes(elements: seq<Element>): seq<byte> {
    if elements == [] then [] else ElementBytes(elements[0]) + ChainBytes(elements[1..])
  }

  /** `b"".join(ies)`. */
  function Concat(chunks: seq<seq<byte>>): seq<byte> {
    if chunks == [] then [] else chunks[0] + Concat(chunks[1..])
  }

  /** The `ies` list: one entry per element, each the bytes of the chain from there on. */
  function Ies(elements: seq<Element>): seq<seq<byte>> {
    seq(|elements|, k requires 0 <= k < |elements| => ChainBytes(elements[k..]))
  }

  /** The inner `while`: `ies` gets one entry per element, the last one that element alone, and each
    * entry the element's own bytes in front of the next entry. */
  method CollectIes(elements: seq<Element>) returns (ies: seq<seq<byte>>)
    ensures ies == Ies(elements)
    ensures |ies| == |elements|
    ensures ies != [] ==> ies[|ies| - 1] == ElementBytes(elements[|elements| - 1])
    ensures forall k :: 0 < k < |ies| ==> ies[k - 1] == ElementBytes(elements[k - 1]) + ies[k]
  {
    ies := [];
    var k := 0;
    while k < |elements|
      invariant 0 <= k <= |elements|
      invariant ies == Ies(elements)[..k]
    {
      ies := ies + [ChainBytes(elements[k..])];
      k := k + 1;
    }
    assert Ies(elements)[..k] == Ies(elements);
    forall k | 0 < k < |ies|
      ensures ies[k - 1] == ElementBytes(elements[k - 1]) + ies[k]
    {
      assert elements[k - 1..][1..] == elements[k..];
    }
    if ies != [] {
      var n := |elements| - 1;
      assert elements[n..] == [elements[n]] && elements[n..][1..] == [];
      assert ElementBytes(elements[n]) + [] == ElementBytes(elements[n]);
    }
  }

  /** A packet adds its sender to a list iff it is a probe request with at least one element. */
  predicate Contributes(p: Packet) {
    p.probeRequest && p.elements != []
  }

  /** The key a contributing packet is listed under. */
  function PacketFingerprint(md5: Digest, p: Packet): string {
    md5(Concat(Ies(p.elements)))
  }

  /** The (fingerprint, MAC) appends the packet loop makes, in capture order. */
  function FingerprintPairs(md5: Digest, packets: seq<Packet>): (r: seq<(string, string)>)
    ensures |r| <= |packets|
    decreases |packets|
  {
    if packets == [] then []
    else
      var p := packets[|packets| - 1];
      FingerprintPairs(md5, packets[..|packets| - 1])
        + (if Contributes(p) then [(PacketFingerprint(md5, p), p.addr2)] else [])
  }

  lemma FingerprintPairsNext(md5: Digest, packets: seq<Packet>, i: nat)
    requires i < |packets|
    ensures FingerprintPairs(md5, packets[..i + 1]) == FingerprintPairs(md5, packets[..i])
      + (if Contributes(packets[i]) then [(PacketFingerprint(md5, packets[i]), packets[i].addr2)] else [])
  {
    assert packets[..i + 1][..i] == packets[..i];
  }

  /** The number of contributing packets whose fingerprint is `fp`. */
  function CountWith(md5: Digest, packets: seq<Packet>, fp: string): nat
    decreases |packets|
  {
    if packets == [] then 0
    else
      var p := packets[|packets| - 1];
      CountWith(md5, packets[..|packets| - 1], fp) + (if Contributes(p) && PacketFingerprint(md5, p) == fp then 1 else 0)
  }

  /** The number of contributing packets. */
  function CountContributing(packets: seq<Packet>): nat
    decreases |packets|
  {
    if packets == [] then 0
    else CountContributing(packets[..|packets| - 1]) + (if Contributes(packets[|packets| - 1]) then 1 else 0)
  }

  /** MACs are appended without de-duplication: a list is as long as its fingerprint's packet count. */
  lemma {:induction false} ListLengthIsPacketCount(md5: Digest, packets: seq<Packet>, fp: string)
    ensures |Select(FingerprintPairs(md5, packets), fp)| == CountWith(md5, packets, fp)
    decreases |packets|
  {
    if packets != [] {
      var n := |packets| - 1;
      var p := packets[n];
      var ps := FingerprintPairs(md5, packets[..n]);
      ListLengthIsPacketCount(md5, packets[..n], fp);
      if Contributes(p) {
        SelectSnoc(ps, (PacketFingerprint(md5, p), p.addr2), fp);
      } else {
        assert FingerprintPairs(md5, packets) == ps + [] == ps;
      }
    }
  }

  /** One append per contributing packet. */
  lemma {:induction false} PairsPerPacket(md5: Digest, packets: seq<Packet>)
    ensures |FingerprintPairs(md5, packets)| == CountContributing(packets)
    decreases |packets|
  {
    if packets != [] {
      PairsPerPacket(md5, packets[..|packets| - 1]);
    }
  }

  /** Some contributing packet of `packets` was sent by `mac` and has fingerprint `fp`. */
  predicate SentWith(md5: Digest, packets: seq<Packet>, fp: string, mac: string) {
    exists i :: 0 <= i < |packets| && Contributes(packets[i]) && packets[i].addr2 == mac && PacketFingerprint(md5, packets[i]) == fp
  }

  lemma SentWithSnoc(md5: Digest, packets: seq<Packet>, fp: string, mac: string)
    requires packets != []
    ensures var p := packets[|packets| - 1];
      SentWith(md5, packets, fp, mac) <==>
        SentWith(md5, packets[..|packets| - 1], fp, mac) || (Contributes(p) && p.addr2 == mac && PacketFingerprint(md5, p) == fp)
  {
    var init := packets[..|packets| - 1];
    if SentWith(md5, init, fp, mac) {
      var i :| 0 <= i < |init| && Contributes(init[i]) && init[i].addr2 == mac && PacketFingerprint(md5, init[i]) == fp;
      assert packets[i] == init[i];
    }
    if SentWith(md5, packets, fp, mac) {
      var i :| 0 <= i < |packets| && Contributes(packets[i]) && packets[i].addr2 == mac && PacketFingerprint(md5, packets[i]) == fp;
      if i < |init| {
        assert packets[i] == init[i];
      }
    }
  }

  /** A MAC is listed under `fp` iff one of its contributing packets has that fingerprint. */
  lemma {:induction false} ListedIffSent(md5: Digest, packets: seq<Packet>, fp: string, mac: string)
    ensures mac in Select(FingerprintPairs(md5, packets), fp) <==> SentWith(md5, packets, fp, mac)
    decreases |packets|
  {
    if packets != [] {
      var n := |packets| - 1;
      var p := packets[n];
      var ps := FingerprintPairs(md5, packets[..n]);
      ListedIffSent(md5, packets[..n], fp, mac);
      SentWithSnoc(md5, packets, fp, mac);
      if Contributes(p) {
        SelectSnoc(ps, (PacketFingerprint(md5, p), p.addr2), fp);
      } else {
        assert FingerprintPairs(md5, packets) == ps + [] == ps;
      }
    }
  }

  /** `fingerprints` after the appends `pairs`, built the way the loop builds it. */
  ghost function ListDict(pairs: seq<(string, string)>): map<string, seq<string>> {
    if pairs == [] then map[]
    else
      var (fp, mac) := pairs[|pairs| - 1];
      var m := ListDict(pairs[..|pairs| - 1]);
      m[fp := (if fp in m then m[fp] else []) + [mac]]
  }

  /** `fingerprints` has a key per fingerprint seen, holding its MACs in append order. */
  lemma {:induction false} ListDictMeaning(pairs: seq<(string, string)>)
    ensures forall fp :: fp in ListDict(pairs) <==> fp in Keys(pairs)
    ensures forall fp :: fp in ListDict(pairs) ==> ListDict(pairs)[fp] == Select(pairs, fp)
    decreases |pairs|
  {
    if pairs != [] {
      var init := pairs[..|pairs| - 1];
      var (fp, mac) := pairs[|pairs| - 1];
      ListDictMeaning(init);
      assert pairs == init + [(fp, mac)];
      KeysSnoc(init, (fp, mac));
      forall f | f in ListDict(pairs)
        ensures ListDict(pairs)[f] == Select(pairs, f)
      {
        SelectSnoc(init, (fp, mac), f);
        if f == fp && fp !in ListDict(init) {
          SelectNonEmpty(init, fp);
        }
      }
    }
  }

  lemma ListDictNext(pairs: seq<(string, string)>, fp: string, mac: string)
    ensures var m := ListDict(pairs);
      ListDict(pairs + [(fp, mac)]) == m[fp := (if fp in m then m[fp] else []) + [mac]]
  {
    assert (pairs + [(fp, mac)])[..|pairs|] == pairs;
  }

  lemma OrderNext(pairs: seq<(string, string)>, fp: string, mac: string)
    ensures Distinct(Keys(pairs + [(fp, mac)])) ==
      if fp in ListDict(pairs) then Distinct(Keys(pairs)) else Distinct(Keys(pairs)) + [fp]
  {
    ListDictMeaning(pairs);
    KeysSnoc(pairs, (fp, mac));
    DistinctSnoc(Keys(pairs), fp);
  }

  /** One row of `df_fp`. */
  datatype Row = Row(fingerprint: string, macs: seq<string>)

  /** The packet loop and `df_fp`: one row per fingerprint in first-seen order, listing every append. */
  method FingerprintRows(md5: Digest, packets: seq<Packet>) returns (rows: seq<Row>)
    ensures |rows| == |Distinct(Keys(FingerprintPairs(md5, packets)))|
    ensures forall k :: 0 <= k < |rows| ==>
      rows[k] == Row(Distinct(Keys(FingerprintPairs(md5, packets)))[k],
                     Select(FingerprintPairs(md5, packets), Distinct(Keys(FingerprintPairs(md5, packets)))[k]))
  {
    var order: seq<string> := [];
    var fingerprints: map<string, seq<string>> := map[];
    ghost var pairs: seq<(string, string)> := [];
    var i := 0;
    while i < |packets|
      invariant 0 <= i <= |packets|
      invariant pairs == FingerprintPairs(md5, packets[..i])
      invariant order == Distinct(Keys(pairs)) && fingerprints == ListDict(pairs)
    {
      FingerprintPairsNext(md5, packets, i);
      var pkt := packets[i];
      if pkt.probeRequest {
        var mac := pkt.addr2;
        var ies := CollectIes(pkt.elements);
        if ies != [] {
          var fingerprint := md5(Concat(ies));
          ListDictNext(pairs, fingerprint, mac);
          OrderNext(pairs, fingerprint, mac);
          if fingerprint !in fingerprints {
            order := order + [fingerprint];
          }
          fingerprints := fingerprints[fingerprint := (if fingerprint in fingerprints then fingerprints[fingerprint] else []) + [mac]];
          pairs := pairs + [(fingerprint, mac)];
        }
      }
      i := i + 1;
    }
    assert packets[..i] == packets;
    ListDictMeaning(pairs);
    forall k | 0 <= k < |order|
      ensures order[k] in fingerprints
    {
      DistinctMember(Keys(pairs), order[k]);
    }
    rows := seq(|order|, k requires 0 <= k < |order| => Row(order[k], fingerprints[order[k]]));
  }

  /** Every row lists at least one MAC, and the lists together hold one entry per contributing packet. */
  lemma RowsCoverPackets(md5: Digest, packets: seq<Packet>)
    ensures var pairs := FingerprintPairs(md5, packets);
      forall fp :: fp in Distinct(Keys(pairs)) ==> Select(pairs, fp) != []
    ensures var pairs := FingerprintPairs(md5, packets);
      TotalSize(pairs, Distinct(Keys(pairs))) == CountContributing(packets)
  {
    var pairs := FingerprintPairs(md5, packets);
    forall fp | fp in Distinct(Keys(pairs))
      ensures Select(pairs, fp) != []
    {
      DistinctMember(Keys(pairs), fp);
      SelectNonEmpty(pairs, fp);
    }
    forall i | 0 <= i < |pairs|
      ensures pairs[i].0 in Distinct(Keys(pairs))
    {
      assert Keys(pairs)[i] == pairs[i].0;
      DistinctMember(Keys(pairs), pairs[i].0);
    }
    TotalSizeCovers(pairs, Distinct(Keys(pairs)));
    PairsPerPacket(md5, packets);
  }
}
