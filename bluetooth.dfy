/**
 * Bluetooth/bluetooth.py: the enrichment of Kismet's Bluetooth device records
 * (`extract_bluetooth_to_csv`), the behaviour tags and derived tables of
 * `analyze_behavior`, and the lines of the KML document `export_kml` writes.
 */
module Bluetooth {
  import opened Common
  import opened Text
  import opened Grouping
  import opened PyvipFrame

  // ---------------------------------------------------------------- enrichment

  /** The `device` field of a Kismet record, as far as the enrichment reads it. */
  datatype Blob =
    | NotText                                            // not a str
    | Malformed                                          // a str on which `json.loads` or a later step raises
    | Meta(typeCode: Option<int>, services: seq<string>) // `bluetooth.device.type` (None: absent) and `bluetooth.device.services`

  /** A Kismet device record: the fields the enrichment reads, and the three it adds (`None` until it has run). */
  datatype Device = Device(
    phyname: Option<string>, devmac: Option<string>, blob: Blob,
    services: Option<string>, btType: Option<string>, vendorPrefix: Option<string>)

  /** `d.get('phyname', '').lower() == 'bluetooth'`. */
  predicate IsBluetooth(d: Device) {
    Lower(if d.phyname.Some? then d.phyname.value else "") == "bluetooth"
  }

  /** `bluetooth_devices`: the records whose PHY is Bluetooth, in order. */
  function BluetoothDevices(devices: seq<Device>): (r: seq<Device>)
    ensures forall d :: d in r <==> d in devices && IsBluetooth(d)
    ensures |r| <= |devices|
  {
    Filter(devices, IsBluetooth)
  }

  /**
   * The filter keeps records one at a time: filtering a concatenation
   * concatenates the filtered parts. With `BluetoothDevicesSingle` this fixes
   * the order and the repeats of the result.
   */
  lemma BluetoothDevicesAppend(a: seq<Device>, b: seq<Device>)
    ensures BluetoothDevices(a + b) == BluetoothDevices(a) + BluetoothDevices(b)
  {
    FilterAppend(a, b, IsBluetooth);
  }

  /** A single record is kept exactly when it is Bluetooth. */
  lemma BluetoothDevicesSingle(d: Device)
    ensures BluetoothDevices([d]) == if IsBluetooth(d) then [d] else []
  {
    FilterSingle(d, IsBluetooth);
  }

  /** Some service UUID starts with "0000". */
  predicate HasBaseUuid(services: seq<string>) {
    exists i :: 0 <= i < |services| && StartsWith(services[i], "0000")
  }

  /**
   * `bt_type`: Classic exactly for type code 0; BLE for type code 1 and, for
   * any other or no code, when some service starts with "0000"; otherwise, and
   * whenever the blob is missing or unreadable, Unknown.
   */
  function BtType(blob: Blob): (t: string)
    ensures t == "BLE" || t == "Classic" || t == "Unknown"
    ensures t == "Classic" <==> blob.Meta? && blob.typeCode == Some(0)
    ensures t == "BLE" <==>
      blob.Meta? && (blob.typeCode == Some(1) || (blob.typeCode != Some(0) && HasBaseUuid(blob.services)))
  {
    match blob
    case NotText => "Unknown"
    case Malformed => "Unknown"
    case Meta(code, services) =>
      if code == Some(1) then "BLE"
      else if code == Some(0) then "Classic"
      else if HasBaseUuid(services) then "BLE"
      else "Unknown"
  }

  /** The `services` text: the list joined with ", ", "None" for no list or an empty one, "Invalid JSON" when reading raised. */
  function ServicesText(blob: Blob): string {
    match blob
    case NotText => "None"
    case Malformed => "Invalid JSON"
    case Meta(_, services) => if services == [] then "None" else Join(services, ", ")
  }

  /** `vendor_prefix`: the first eight characters of the devmac, "" for a record without one. */
  function VendorPrefix(devmac: Option<string>): (p: string)
    ensures devmac.None? ==> p == ""
    ensures devmac.Some? ==> p <= devmac.value && |p| == (if |devmac.value| < 8 then |devmac.value| else 8)
  {
    if devmac.None? then ""
    else if |devmac.value| < 8 then devmac.value
    else devmac.value[..8]
  }

  /** A record after one pass of the enrichment loop. */
  function Enriched(d: Device): Device {
    d.(services := Some(ServicesText(d.blob)), btType := Some(BtType(d.blob)), vendorPrefix := Some(VendorPrefix(d.devmac)))
  }

  /** The enrichment loop: every record gains `bt_type`, `services` and `vendor_prefix` in place, and keeps the rest. */
  method EnrichDevices(devices: array<Device>)
    modifies devices
    ensures forall i :: 0 <= i < devices.Length ==> devices[i] == Enriched(old(devices[i]))
  {
    var i := 0;
    while i < devices.Length
      invariant 0 <= i <= devices.Length
      invariant forall j :: 0 <= j < i ==> devices[j] == Enriched(old(devices[j]))
      invariant forall j :: i <= j < devices.Length ==> devices[j] == old(devices[j])
    {
      devices[i] := Enriched(devices[i]);
      i := i + 1;
    }
  }

  // ------------------------------------------------------------------ analysis

  /**
   * One row of the enriched CSV as `analyze_behavior` reads it back: a `None`
   * cell is a NaN (an empty or NA text reads back so, see `ReadBack`); `duration` is `last_seen - first_seen` in whole seconds.
   */
  datatype Observed = Observed(devmac: Cell, vendorPrefix: Cell, signal: int, duration: int, services: Cell)

  /** `num_services`: 0 for a missing or "none" services text, otherwise its number of comma-separated pieces. */
  function NumServices(services: Cell): nat {
    var x := if services.None? then "None" else services.value;
    if Lower(Strip(x)) == "none" then 0 else |Split(x, ',')|
  }

  /** A text that holds a comma never reads as "none". */
  lemma CommaNotNone(x: string)
    requires ',' in x
    ensures Lower(Strip(x)) != "none"
  {
    StripKeeps(x, ',');
    var s := Strip(x);
    var k :| 0 <= k < |s| && s[k] == ',';
    assert Lower(s)[k] == ',';
    assert ',' !in "none";
  }

  /** "None", the text of no services, counts 0. */
  lemma NoneCountsZero()
    ensures NumServices(Some("None")) == 0
    ensures NumServices(None) == 0
  {
    NoneReadsNone();
  }

  lemma NoneReadsNone()
    ensures Lower(Strip("None")) == "none"
  {
    StripBare("None");
    NoneLower();
  }

  lemma NoneLower()
    ensures Lower("None") == "none"
  {
    var r := Lower("None");
    assert |r| == 4;
    assert r[0] == 'n' && r[1] == 'o' && r[2] == 'n' && r[3] == 'e';
  }

  /** A comma-free text that does not read as "none" counts one service. */
  lemma OneService(x: string)
    requires ',' !in x && Lower(Strip(x)) != "none"
    ensures NumServices(Some(x)) == 1
  {
    OccurrencesAbsent(x, ',');
    SplitLength(x, ',');
  }

  /** "Invalid JSON", the text of an unreadable blob, counts 1. */
  lemma InvalidCountsOne()
    ensures NumServices(Some("Invalid JSON")) == 1
  {
    InvalidNotNone();
    InvalidNoComma();
    OneService("Invalid JSON");
  }

  lemma InvalidNoComma()
    ensures ',' !in "Invalid JSON"
  {
  }

  lemma InvalidNotNone()
    ensures Lower(Strip("Invalid JSON")) != "none"
  {
    StripBare("Invalid JSON");
    LowerLength(Strip("Invalid JSON"), "none");
  }

  /** A joined list of comma-free services that is not the single word "none" counts its services. */
  lemma ListCounted(xs: seq<string>)
    requires xs != [] && forall i :: 0 <= i < |xs| ==> ',' !in xs[i]
    requires !(|xs| == 1 && Lower(Strip(xs[0])) == "none")
    ensures NumServices(Some(Join(xs, ", "))) == |xs|
  {
    var j := Join(xs, ", ");
    if |xs| > 1 {
      assert j == xs[0] + ", " + Join(xs[1..], ", ");
      assert j[|xs[0]|] == ',';
      CommaNotNone(j);
    }
    SplitJoinCount(xs);
  }

  /** The texts `read_csv` reads back as NaN by default, the empty text among them. */
  const NaTexts: set<string> :=
    {"", "#N/A", "#N/A N/A", "#NA", "-1.#IND", "-1.#QNAN", "-NaN", "-nan", "1.#IND", "1.#QNAN",
     "<NA>", "N/A", "NA", "NULL", "NaN", "None", "n/a", "nan", "null"}

  /** A text cell written to CSV and read back: a NaN for one of the NA texts, the text itself otherwise. */
  function ReadBack(t: string): (c: Cell)
    ensures c.None? <==> t in NaTexts
    ensures c.Some? ==> c.value == t
  {
    if t in NaTexts then None else Some(t)
  }

  /**
   * The services text of a blob, written and read back, counts the services
   * it listed when none holds a comma, they are not the single word "none"
   * and their joined text is not an NA text; no blob, an empty list or a
   * joined text that reads back as NaN counts 0, and an unreadable blob
   * counts 1.
   */
  lemma ServicesCounted(blob: Blob)
    ensures blob.NotText? ==> NumServices(ReadBack(ServicesText(blob))) == 0
    ensures blob.Malformed? ==> NumServices(ReadBack(ServicesText(blob))) == 1
    ensures blob.Meta? && blob.services == [] ==> NumServices(ReadBack(ServicesText(blob))) == 0
    ensures blob.Meta? && ServicesText(blob) in NaTexts ==> NumServices(ReadBack(ServicesText(blob))) == 0
    ensures blob.Meta? && blob.services != [] && (forall i :: 0 <= i < |blob.services| ==> ',' !in blob.services[i])
            && !(|blob.services| == 1 && Lower(Strip(blob.services[0])) == "none") && ServicesText(blob) !in NaTexts
            ==> NumServices(ReadBack(ServicesText(blob))) == |blob.services|
  {
    match blob
    case NotText => NoneCountsZero();
    case Malformed => InvalidCountsOne(); InvalidNotNa();
    case Meta(_, xs) =>
      if xs == [] || ServicesText(blob) in NaTexts {
        NoneCountsZero();
      } else if (forall i :: 0 <= i < |xs| ==> ',' !in xs[i]) && !(|xs| == 1 && Lower(Strip(xs[0])) == "none") {
        ListCounted(xs);
      }
  }

  lemma InvalidNotNa()
    ensures "Invalid JSON" !in NaTexts
  {
    assert |"Invalid JSON"| == 12;
  }

  /** The four overwriting rules of `analyze_behavior`, in the order they run. */
  datatype Rule = AdvertiserRule | PersistentRule | RichServicesRule | ScannerRule

  /** The columns the rules test: `strongest_signal`, `duration_sec`, `num_services`. */
  datatype Features = Features(signal: int, duration: int, numServices: nat)

  function FeaturesOf(o: Observed): Features {
    Features(o.signal, o.duration, NumServices(o.services))
  }

  predicate Matches(rule: Rule, f: Features) {
    match rule
    case AdvertiserRule => f.numServices == 0 && f.duration <= 30
    case PersistentRule => f.duration > 300
    case RichServicesRule => f.numServices > 3
    case ScannerRule => f.duration <= 60 && f.signal >= -50
  }

  function Tag(rule: Rule): string {
    match rule
    case AdvertiserRule => "advertiser"
    case PersistentRule => "persistent"
    case RichServicesRule => "rich_services"
    case ScannerRule => "scanner"
  }

  /**
   * The label a device ends with, by priority: scanner, then rich_services,
   * then persistent, then advertiser, else unknown. Exactly one label holds.
   */
  function Behavior(o: Features): (b: string)
    ensures b in {"scanner", "rich_services", "persistent", "advertiser", "unknown"}
    ensures b == "scanner" <==> Matches(ScannerRule, o)
    ensures b == "rich_services" <==> !Matches(ScannerRule, o) && Matches(RichServicesRule, o)
    ensures b == "persistent" <==>
      !Matches(ScannerRule, o) && !Matches(RichServicesRule, o) && Matches(PersistentRule, o)
    ensures b == "advertiser" <==>
      !Matches(ScannerRule, o) && !Matches(RichServicesRule, o) && !Matches(PersistentRule, o) && Matches(AdvertiserRule, o)
  {
    if Matches(ScannerRule, o) then "scanner"
    else if Matches(RichServicesRule, o) then "rich_services"
    else if Matches(PersistentRule, o) then "persistent"
    else if Matches(AdvertiserRule, o) then "advertiser"
    else "unknown"
  }

  /** The rule columns of the frame, once `num_services` is computed. */
  function Columns(rows: seq<Observed>): (r: seq<Features>)
    ensures |r| == |rows| && forall i :: 0 <= i < |rows| ==> r[i] == FeaturesOf(rows[i])
  {
    seq(|rows|, i requires 0 <= i < |rows| => FeaturesOf(rows[i]))
  }

  /** The `behavior` column the rules leave. */
  function Labels(fs: seq<Features>): (r: seq<string>)
    ensures |r| == |fs|
  {
    seq(|fs|, i requires 0 <= i < |fs| => Behavior(fs[i]))
  }

  /** `df.loc[mask, 'behavior'] = tag` for one rule. */
  method Overwrite(behavior: array<string>, rows: seq<Features>, rule: Rule)
    requires behavior.Length == |rows|
    modifies behavior
    ensures forall i :: 0 <= i < |rows| ==>
      behavior[i] == (if Matches(rule, rows[i]) then Tag(rule) else old(behavior[i]))
  {
    var i := 0;
    while i < |rows|
      invariant 0 <= i <= |rows|
      invariant forall j :: 0 <= j < i ==>
        behavior[j] == (if Matches(rule, rows[j]) then Tag(rule) else old(behavior[j]))
      invariant forall j :: i <= j < |rows| ==> behavior[j] == old(behavior[j])
    {
      if Matches(rule, rows[i]) {
        behavior[i] := Tag(rule);
      }
      i := i + 1;
    }
  }

  /** The `behavior` column: "unknown", then the four rules overwriting it in turn, which gives the priority labels. */
  method AnalyzeBehavior(fs: seq<Features>) returns (labels: seq<string>)
    ensures labels == Labels(fs)
  {
    var behavior := new string[|fs|](_ => "unknown");
    Overwrite(behavior, fs, AdvertiserRule);
    Overwrite(behavior, fs, PersistentRule);
    Overwrite(behavior, fs, RichServicesRule);
    Overwrite(behavior, fs, ScannerRule);
    labels := behavior[..];
  }

  /** An advertiser is weaker than -50 dBm: a strong one is tagged scanner. */
  lemma AdvertiserIsWeak(f: Features)
    requires Behavior(f) == "advertiser"
    ensures f.signal < -50 && f.duration <= 30 && f.numServices == 0
  {
  }

  /** `df[df['behavior'] == b]`: the rows labelled `b`, in order. */
  function WithLabel(rows: seq<Observed>, labels: seq<string>, b: string): (r: seq<Observed>)
    requires |labels| == |rows|
    ensures |r| <= |rows|
    decreases |rows|
  {
    if rows == [] then []
    else
      var n := |rows| - 1;
      WithLabel(rows[..n], labels[..n], b) + (if labels[n] == b then [rows[n]] else [])
  }

  /** A row is in the subset for `b` exactly when it sits at a position labelled `b`. */
  lemma {:induction false} WithLabelMember(rows: seq<Observed>, labels: seq<string>, b: string, o: Observed)
    requires |labels| == |rows|
    ensures o in WithLabel(rows, labels, b) <==> exists i :: 0 <= i < |rows| && rows[i] == o && labels[i] == b
    decreases |rows|
  {
    if rows != [] {
      var n := |rows| - 1;
      WithLabelMember(rows[..n], labels[..n], b, o);
      if exists i :: 0 <= i < |rows| && rows[i] == o && labels[i] == b {
        var i :| 0 <= i < |rows| && rows[i] == o && labels[i] == b;
        if i < n {
          assert rows[..n][i] == o && labels[..n][i] == b;
        }
      }
      if o in WithLabel(rows[..n], labels[..n], b) {
        var i :| 0 <= i < n && rows[..n][i] == o && labels[..n][i] == b;
        assert rows[i] == o && labels[i] == b;
      }
    }
  }

  /**
   * Each subset written out is exactly the devices whose label is `b`, and no
   * device is in two of them: the label depends on the row alone.
   */
  lemma WithLabelExactly(rows: seq<Observed>, fs: seq<Features>, b: string, o: Observed)
    requires |fs| == |rows| && forall i :: 0 <= i < |rows| ==> fs[i] == FeaturesOf(rows[i])
    ensures o in WithLabel(rows, Labels(fs), b) <==> o in rows && Behavior(FeaturesOf(o)) == b
  {
    WithLabelMember(rows, Labels(fs), b, o);
  }

  /** No device is in two of the subsets. */
  lemma SubsetsDisjoint(rows: seq<Observed>, fs: seq<Features>, b1: string, b2: string, o: Observed)
    requires |fs| == |rows| && forall i :: 0 <= i < |rows| ==> fs[i] == FeaturesOf(rows[i])
    requires b1 != b2
    ensures !(o in WithLabel(rows, Labels(fs), b1) && o in WithLabel(rows, Labels(fs), b2))
  {
    WithLabelExactly(rows, fs, b1, o);
    WithLabelExactly(rows, fs, b2, o);
  }

  /** The four subsets and the unknown devices hold every row once between them. */
  lemma {:induction false} SubsetsPartition(rows: seq<Observed>, fs: seq<Features>)
    requires |fs| == |rows|
    ensures var ls := Labels(fs);
      |WithLabel(rows, ls, "advertiser")| + |WithLabel(rows, ls, "persistent")|
      + |WithLabel(rows, ls, "rich_services")| + |WithLabel(rows, ls, "scanner")|
      + |WithLabel(rows, ls, "unknown")| == |rows|
    decreases |rows|
  {
    if rows != [] {
      var n := |rows| - 1;
      assert Labels(fs)[..n] == Labels(fs[..n]);
      SubsetsPartition(rows[..n], fs[..n]);
      assert Labels(fs)[n] == Behavior(fs[n]);
    }
  }

  /** The rows `groupby('vendor_prefix')` keeps (a NaN prefix is dropped), keyed by prefix, with their devmac cell. */
  function PrefixRows(rows: seq<Observed>): (r: seq<(Key, Cell)>)
    ensures forall i :: 0 <= i < |r| ==> |r[i].0| == 1
    decreases |rows|
  {
    if rows == [] then []
    else
      var last := rows[|rows| - 1];
      PrefixRows(rows[..|rows| - 1]) + (if last.vendorPrefix.Some? then [([last.vendorPrefix.value], last.devmac)] else [])
  }

  lemma {:induction false} PrefixRowsMember(rows: seq<Observed>, p: string, c: Cell)
    ensures ([p], c) in PrefixRows(rows) <==>
      exists i :: 0 <= i < |rows| && rows[i].vendorPrefix == Some(p) && rows[i].devmac == c
    decreases |rows|
  {
    if rows != [] {
      var n := |rows| - 1;
      var last := rows[n];
      PrefixRowsMember(rows[..n], p, c);
      var ps := PrefixRows(rows[..n]);
      var tail := if last.vendorPrefix.Some? then [([last.vendorPrefix.value], last.devmac)] else [];
      assert PrefixRows(rows) == ps + tail;
      if ([p], c) in ps {
        var i :| 0 <= i < n && rows[..n][i].vendorPrefix == Some(p) && rows[..n][i].devmac == c;
        assert rows[i] == rows[..n][i];
      }
      if exists i :: 0 <= i < |rows| && rows[i].vendorPrefix == Some(p) && rows[i].devmac == c {
        var i :| 0 <= i < |rows| && rows[i].vendorPrefix == Some(p) && rows[i].devmac == c;
        if i < n {
          assert rows[..n][i] == rows[i];
        } else {
          assert tail == [([p], c)];
        }
      }
    }
  }

  /** `nunique()` of a group: its distinct non-null devmacs. */
  function UniqueMacs(ps: seq<(Key, Cell)>, g: Key): nat {
    |Distinct(Select(Present(ps), g))|
  }

  /** The groups, in order, with more than one unique devmac, as (vendor_prefix, unique_macs). */
  function RotatingOf(ps: seq<(Key, Cell)>, groups: seq<Key>): (r: seq<(string, nat)>)
    requires forall g :: g in groups ==> |g| == 1
    ensures forall e :: e in r <==> [e.0] in groups && e.1 == UniqueMacs(ps, [e.0]) && e.1 > 1
    decreases |groups|
  {
    if groups == [] then []
    else
      var init := groups[..|groups| - 1];
      var g := groups[|groups| - 1];
      assert groups == init + [g];
      assert g == [g[0]];
      var rest := RotatingOf(ps, init);
      if UniqueMacs(ps, g) > 1 then rest + [(g[0], UniqueMacs(ps, g))] else rest
  }

  /** `rotating_macs`, in ascending prefix order. */
  function RotatingMacs(rows: seq<Observed>): seq<(string, nat)> {
    var ps := PrefixRows(rows);
    RotatingOf(ps, SortedDistinct(Keys(ps)))
  }

  /** The distinct devmacs recorded with vendor prefix `p`. */
  function MacsWithPrefix(rows: seq<Observed>, p: string): set<string> {
    set i | 0 <= i < |rows| && rows[i].vendorPrefix == Some(p) && rows[i].devmac.Some? :: rows[i].devmac.value
  }

  /** A prefix group's `nunique` is its number of distinct devmacs. */
  lemma UniqueMacsCount(rows: seq<Observed>, p: string)
    ensures UniqueMacs(PrefixRows(rows), [p]) == |MacsWithPrefix(rows, p)|
  {
    var ps := PrefixRows(rows);
    var sel := Select(Present(ps), [p]);
    var d := Distinct(sel);
    NoDuplicatesCardinality(d);
    forall x
      ensures x in d <==> x in MacsWithPrefix(rows, p)
    {
      DistinctMember(sel, x);
      SelectMember(Present(ps), [p], x);
      PresentMember(ps, [p], x);
      PrefixRowsMember(rows, p, Some(x));
      if x in MacsWithPrefix(rows, p) {
        var i :| 0 <= i < |rows| && rows[i].vendorPrefix == Some(p) && rows[i].devmac.Some? && rows[i].devmac.value == x;
        assert rows[i].devmac == Some(x);
      }
    }
    assert (set x | x in d) == MacsWithPrefix(rows, p);
  }

  /** A prefix recorded with some devmac is one of the groups. */
  lemma PrefixGroup(rows: seq<Observed>, p: string)
    requires MacsWithPrefix(rows, p) != {}
    ensures [p] in SortedDistinct(Keys(PrefixRows(rows)))
  {
    var ps := PrefixRows(rows);
    var x :| x in MacsWithPrefix(rows, p);
    var i :| 0 <= i < |rows| && rows[i].vendorPrefix == Some(p) && rows[i].devmac.Some? && rows[i].devmac.value == x;
    PrefixRowsMember(rows, p, rows[i].devmac);
    var j :| 0 <= j < |ps| && ps[j] == ([p], rows[i].devmac);
    assert Keys(ps)[j] == [p];
  }

  /** A prefix is in `rotating_macs` iff it has more than one distinct devmac, and `unique_macs` is that number. */
  lemma RotatingExactly(rows: seq<Observed>, p: string, n: nat)
    ensures (p, n) in RotatingMacs(rows) <==> n == |MacsWithPrefix(rows, p)| && n > 1
  {
    UniqueMacsCount(rows, p);
    if n == |MacsWithPrefix(rows, p)| && n > 1 {
      PrefixGroup(rows, p);
    }
  }

  /** The devmacs of the rows with `duration_sec <= 60`, in order (`value_counts` skips a NaN devmac). */
  function ShortLivedMacs(rows: seq<Observed>): seq<string>
    decreases |rows|
  {
    if rows == [] then []
    else
      var last := rows[|rows| - 1];
      ShortLivedMacs(rows[..|rows| - 1]) + (if last.duration <= 60 && last.devmac.Some? then [last.devmac.value] else [])
  }

  /** The candidates, in order, counted more than once in `macs`, with their counts. */
  function RepeatsOf(macs: seq<string>, candidates: seq<string>): (r: seq<(string, nat)>)
    ensures forall e :: e in r <==> e.0 in candidates && e.1 == multiset(macs)[e.0] && e.1 > 1
    decreases |candidates|
  {
    if candidates == [] then []
    else
      var init := candidates[..|candidates| - 1];
      var m := candidates[|candidates| - 1];
      assert candidates == init + [m];
      var rest := RepeatsOf(macs, init);
      if multiset(macs)[m] > 1 then rest + [(m, multiset(macs)[m])] else rest
  }

  /** `repetitive_advertisers`: each short-lived devmac seen more than once, with its count. */
  function RepetitiveAdvertisers(rows: seq<Observed>): seq<(string, nat)> {
    var macs := ShortLivedMacs(rows);
    RepeatsOf(macs, Distinct(macs))
  }

  /** The rows lasting at most 60 seconds that carry devmac `m`. */
  function ShortLivedWith(rows: seq<Observed>, m: string): set<nat> {
    set i: nat | i < |rows| && rows[i].duration <= 60 && rows[i].devmac == Some(m)
  }

  lemma {:induction false} ShortLivedCount(rows: seq<Observed>, m: string)
    ensures multiset(ShortLivedMacs(rows))[m] == |ShortLivedWith(rows, m)|
    decreases |rows|
  {
    if rows == [] {
      assert ShortLivedWith(rows, m) == {};
    } else {
      var n := |rows| - 1;
      ShortLivedCount(rows[..n], m);
      var last := rows[n];
      var tail := if last.duration <= 60 && last.devmac.Some? then [last.devmac.value] else [];
      assert ShortLivedMacs(rows) == ShortLivedMacs(rows[..n]) + tail;
      ShortLivedWithSnoc(rows, m);
    }
  }

  lemma ShortLivedWithSnoc(rows: seq<Observed>, m: string)
    requires rows != []
    ensures var n := |rows| - 1;
      |ShortLivedWith(rows, m)| ==
        |ShortLivedWith(rows[..n], m)| + (if rows[n].duration <= 60 && rows[n].devmac == Some(m) then 1 else 0)
  {
    var n := |rows| - 1;
    var here: set<nat> := if rows[n].duration <= 60 && rows[n].devmac == Some(m) then {n} else {};
    var before := ShortLivedWith(rows[..n], m);
    forall i: nat
      ensures i in ShortLivedWith(rows, m) <==> i in before + here
    {
      if i < n {
        assert rows[..n][i] == rows[i];
      }
    }
    assert ShortLivedWith(rows, m) == before + here;
    assert n !in before;
  }

  /** A devmac is a repetitive advertiser iff more than one row of at most 60 seconds carries it; `count` is their number. */
  lemma RepetitiveExactly(rows: seq<Observed>, m: string, c: nat)
    ensures (m, c) in RepetitiveAdvertisers(rows) <==> c == |ShortLivedWith(rows, m)| && c > 1
  {
    ShortLivedCount(rows, m);
    DistinctMember(ShortLivedMacs(rows), m);
  }

  predicate StrongSilent(o: Observed) {
    FeaturesOf(o).signal >= -40 && FeaturesOf(o).numServices == 0
  }

  /** `strong_no_services`: the rows at -40 dBm or stronger that list no service, in order. */
  function StrongNoServices(rows: seq<Observed>): (r: seq<Observed>)
    ensures forall o :: o in r <==> o in rows && StrongSilent(o)
    ensures |r| <= |rows|
  {
    Filter(rows, StrongSilent)
  }

  /** The mask keeps rows one at a time: masking a concatenation concatenates the masked parts. */
  lemma StrongNoServicesAppend(a: seq<Observed>, b: seq<Observed>)
    ensures StrongNoServices(a + b) == StrongNoServices(a) + StrongNoServices(b)
  {
    FilterAppend(a, b, StrongSilent);
  }

  /** A single row is kept exactly when it is strong and silent. */
  lemma StrongNoServicesSingle(o: Observed)
    ensures StrongNoServices([o]) == if StrongSilent(o) then [o] else []
  {
    FilterSingle(o, StrongSilent);
  }

  /** A strong device without services is never an advertiser nor rich_services: it is a scanner unless seen for over a minute. */
  lemma StrongSilentBehavior(o: Observed)
    requires StrongSilent(o)
    ensures o.duration <= 60 ==> Behavior(FeaturesOf(o)) == "scanner"
    ensures o.duration > 60 ==> Behavior(FeaturesOf(o)) == (if o.duration > 300 then "persistent" else "unknown")
  {
  }

  // ----------------------------------------------------------------------- KML

  /**
   * One row of the CSV `export_kml` reads, before `fillna(0)`: a `None` cell
   * is a NaN. `gpsInferred` is `None` when the column is absent.
   */
  datatype KmlRow = KmlRow(
    devmac: Cell, vendor: Cell, signal: Cell, behavior: Cell, btType: Cell, services: Cell,
    gpsInferred: Option<Cell>, lat: Option<real>, lon: Option<real>)

  /** A text cell after `fillna(0)`. */
  function Shown(c: Cell): string {
    if c.None? then "0" else c.value
  }

  /** A coordinate after `fillna(0)`. */
  function Coordinate(c: Option<real>): real {
    if c.None? then 0.0 else c.value
  }

  /** `row.get('gps_inferred', False)`. */
  function InferredText(c: Option<Cell>): string {
    if c.None? then "False" else Shown(c.value)
  }

  /** A device is placed on the map unless both its coordinates are 0. */
  predicate Located(row: KmlRow) {
    !(Coordinate(row.lat) == 0.0 && Coordinate(row.lon) == 0.0)
  }

  const KmlHeader: seq<string> := [
    "<?xml version=\"1.0\" encoding=\"UTF-8\"?>",
    "<kml xmlns=\"http://www.opengis.net/kml/2.2\">",
    "<Document>",
    "<name>Bluetooth Devices</name>"]

  const KmlFooter: seq<string> := ["</Document>", "</kml>"]

  /** The `coordinates` element: longitude, latitude, altitude 0; `show` is Python's formatting of a number. */
  function Coordinates(row: KmlRow, show: real -> string): string {
    "<coordinates>" + show(Coordinate(row.lon)) + "," + show(Coordinate(row.lat)) + ",0</coordinates>"
  }

  /** The fourteen lines of one device's Placemark. */
  function Placemark(row: KmlRow, show: real -> string): (p: seq<string>)
    ensures |p| == 14
  {
    [ "<Placemark>",
      "<name>" + Shown(row.devmac) + "</name>",
      "<description><![CDATA[",
      "Vendor: " + Shown(row.vendor) + "<br>",
      "Type: " + Shown(row.btType) + "<br>",
      "Behavior: " + Shown(row.behavior) + "<br>",
      "Signal: " + Shown(row.signal) + "<br>",
      "Services: " + Shown(row.services) + "<br>",
      "GPS Inferred: " + InferredText(row.gpsInferred),
      "]]></description>",
      "<Point>",
      Coordinates(row, show),
      "</Point>",
      "</Placemark>" ]
  }

  /** The Placemark lines of the rows, in order. */
  function Placemarks(rows: seq<KmlRow>, show: real -> string): seq<string>
    decreases |rows|
  {
    if rows == [] then []
    else
      var last := rows[|rows| - 1];
      Placemarks(rows[..|rows| - 1], show) + (if Located(last) then Placemark(last, show) else [])
  }

  /** The rows placed on the map, in order. */
  function LocatedRows(rows: seq<KmlRow>): (r: seq<KmlRow>)
    ensures forall x :: x in r <==> x in rows && Located(x)
  {
    Filter(rows, Located)
  }

  /** The loop skips rows one at a time: the located rows of a concatenation are those of its parts, in order. */
  lemma LocatedRowsAppend(a: seq<KmlRow>, b: seq<KmlRow>)
    ensures LocatedRows(a + b) == LocatedRows(a) + LocatedRows(b)
  {
    FilterAppend(a, b, Located);
  }

  /** A single row is placed exactly when it is located. */
  lemma LocatedRowsSingle(row: KmlRow)
    ensures LocatedRows([row]) == if Located(row) then [row] else []
  {
    FilterSingle(row, Located);
  }

  /** Reading one more row adds its Placemark when it is located. */
  lemma PlacemarksSnoc(rows: seq<KmlRow>, row: KmlRow, show: real -> string)
    ensures Placemarks(rows + [row], show) == Placemarks(rows, show) + (if Located(row) then Placemark(row, show) else [])
  {
    assert (rows + [row])[..|rows|] == rows;
  }

  /** `kml_lines`: the header, a Placemark per located device as the loop meets it, the footer. */
  method ExportKml(rows: seq<KmlRow>, show: real -> string) returns (lines: seq<string>)
    ensures lines == KmlHeader + Placemarks(rows, show) + KmlFooter
  {
    lines := KmlHeader;
    var i := 0;
    while i < |rows|
      invariant 0 <= i <= |rows|
      invariant lines == KmlHeader + Placemarks(rows[..i], show)
    {
      assert rows[..i + 1] == rows[..i] + [rows[i]];
      PlacemarksSnoc(rows[..i], rows[i], show);
      if Located(rows[i]) {
        lines := lines + Placemark(rows[i], show);
      }
      i := i + 1;
    }
    assert rows[..|rows|] == rows;
    lines := lines + KmlFooter;
  }

  /** A slice within the first part of a concatenation. */
  lemma FrontSlice(a: seq<string>, b: seq<string>, i: nat, j: nat)
    requires i <= j <= |a|
    ensures (a + b)[i..j] == a[i..j]
  {
    assert |(a + b)[i..j]| == j - i;
    forall x | 0 <= x < j - i
      ensures (a + b)[i..j][x] == a[i..j][x]
    {
      assert (a + b)[i + x] == a[i + x];
    }
  }

  /** The second part of a concatenation, sliced back out. */
  lemma BackSlice(a: seq<string>, b: seq<string>)
    ensures (a + b)[|a|..|a| + |b|] == b
  {
    assert |(a + b)[|a|..|a| + |b|]| == |b|;
    forall x | 0 <= x < |b|
      ensures (a + b)[|a|..|a| + |b|][x] == b[x]
    {
      assert (a + b)[|a| + x] == b[x];
    }
  }

  /** The k-th block of fourteen Placemark lines belongs to the k-th located device. */
  lemma {:induction false} PlacemarkBlocks(rows: seq<KmlRow>, show: real -> string)
    ensures |Placemarks(rows, show)| == 14 * |LocatedRows(rows)|
    ensures forall k :: 0 <= k < |LocatedRows(rows)| ==>
      Placemarks(rows, show)[14 * k .. 14 * k + 14] == Placemark(LocatedRows(rows)[k], show)
    decreases |rows|
  {
    if rows != [] {
      var n := |rows| - 1;
      var init := rows[..n];
      assert rows == init + [rows[n]];
      PlacemarkBlocks(init, show);
      PlacemarksSnoc(init, rows[n], show);
      FilterSnoc(init, rows[n], Located);
      var a := Placemarks(init, show);
      var l := LocatedRows(init);
      if Located(rows[n]) {
        var b := Placemark(rows[n], show);
        assert LocatedRows(rows) == l + [rows[n]];
        forall k | 0 <= k < |l| + 1
          ensures (a + b)[14 * k .. 14 * k + 14] == Placemark((l + [rows[n]])[k], show)
        {
          if k < |l| {
            FrontSlice(a, b, 14 * k, 14 * k + 14);
          } else {
            BackSlice(a, b);
          }
        }
      } else {
        assert LocatedRows(rows) == l;
      }
    }
  }

  /** A slice of the middle part of a three-part sequence. */
  lemma MiddleSlice(a: seq<string>, b: seq<string>, c: seq<string>, i: nat, j: nat)
    requires i <= j <= |b|
    ensures (a + b + c)[|a| + i .. |a| + j] == b[i..j]
  {
    assert |(a + b + c)[|a| + i .. |a| + j]| == j - i;
    forall x | 0 <= x < j - i
      ensures (a + b + c)[|a| + i .. |a| + j][x] == b[i..j][x]
    {
      assert (a + b + c)[|a| + i + x] == b[i + x];
    }
  }

  /** The document opens with the four header lines and closes with the two footer lines. */
  lemma KmlFrame(rows: seq<KmlRow>, show: real -> string)
    ensures var doc := KmlHeader + Placemarks(rows, show) + KmlFooter;
      && |doc| == 14 * |LocatedRows(rows)| + 6
      && doc[..4] == KmlHeader
      && doc[|doc| - 2..] == KmlFooter
  {
    PlacemarkBlocks(rows, show);
    var body := Placemarks(rows, show);
    var doc := KmlHeader + body + KmlFooter;
    assert doc[..4] == KmlHeader;
    assert doc[|doc| - 2..] == KmlFooter;
  }

  /** The coordinates are the twelfth line of a Placemark. */
  lemma PlacemarkCoordinates(row: KmlRow, show: real -> string)
    ensures Placemark(row, show)[11] == Coordinates(row, show)
  {
  }

  /** An element read through a slice. */
  lemma SliceElement(s: seq<string>, i: nat, j: nat, x: nat)
    requires i <= x < j <= |s|
    ensures s[i..j][x - i] == s[x]
  {
  }

  /** The k-th located device's Placemark is lines 4 + 14k to 17 + 14k of the document, its coordinates line 15 + 14k. */
  lemma KmlBlock(rows: seq<KmlRow>, show: real -> string, k: nat)
    requires k < |LocatedRows(rows)|
    ensures var doc := KmlHeader + Placemarks(rows, show) + KmlFooter;
      && 18 + 14 * k <= |doc|
      && doc[4 + 14 * k .. 18 + 14 * k] == Placemark(LocatedRows(rows)[k], show)
      && doc[15 + 14 * k] == Coordinates(LocatedRows(rows)[k], show)
  {
    PlacemarkBlocks(rows, show);
    var row := LocatedRows(rows)[k];
    var body := Placemarks(rows, show);
    var doc := KmlHeader + body + KmlFooter;
    MiddleSlice(KmlHeader, body, KmlFooter, 14 * k, 14 * k + 14);
    SliceElement(doc, 4 + 14 * k, 18 + 14 * k, 15 + 14 * k);
    PlacemarkCoordinates(row, show);
  }

  /**
   * Between them, one fourteen-line Placemark per device not at (0, 0), in
   * input order, with its coordinates written "lon,lat,0".
   */
  lemma KmlLayout(rows: seq<KmlRow>, show: real -> string)
    ensures var doc := KmlHeader + Placemarks(rows, show) + KmlFooter;
      var located := LocatedRows(rows);
      && |doc| == 14 * |located| + 6
      && forall k :: 0 <= k < |located| ==>
        && doc[4 + 14 * k .. 18 + 14 * k] == Placemark(located[k], show)
        && doc[15 + 14 * k] == Coordinates(located[k], show)
  {
    KmlFrame(rows, show);
    forall k | 0 <= k < |LocatedRows(rows)|
      ensures var doc := KmlHeader + Placemarks(rows, show) + KmlFooter;
        && 18 + 14 * k <= |doc|
        && doc[4 + 14 * k .. 18 + 14 * k] == Placemark(LocatedRows(rows)[k], show)
        && doc[15 + 14 * k] == Coordinates(LocatedRows(rows)[k], show)
    {
      KmlBlock(rows, show, k);
    }
  }
}
