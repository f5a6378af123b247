/**
 * `detect_rogue_ap` of WiFi/pyvip/pyvip_RogueAPDetection.py: the rows of a
 * two-column frame (SSID, BSSID) that have both cells are listed once each, in
 * first-seen order, and every listed access point is whitelisted exactly when
 * its SSID, as tshark printed it, is one of the known SSIDs.
 */
module PyvipRogueAp {
  import opened Common
  import opened Text
  import opened Grouping
  import opened PyvipFrame

  /** One row of the listing: SSID and BSSID as printed, `whitelist`, `attack_type`, `count`. */
  datatype ApRow = ApRow(ssid: string, bssid: string, whitelist: bool, attackType: string, count: nat)

  /** Each piece of the known-SSID input, stripped. */
  function Stripped(pieces: seq<string>): (r: seq<string>)
    ensures |r| == |pieces|
  {
    seq(|pieces|, i requires 0 <= i < |pieces| => Strip(pieces[i]))
  }

  /** `[ssid.strip() for ssid in pieces if ssid.strip()]`. */
  function KnownList(pieces: seq<string>): (known: seq<string>)
    ensures forall s :: s in known <==> s != "" && s in Stripped(pieces)
    decreases |pieces|
  {
    if pieces == [] then []
    else
      var init := pieces[..|pieces| - 1];
      var s := Strip(pieces[|pieces| - 1]);
      assert Stripped(pieces) == Stripped(init) + [s];
      KnownList(init) + (if s != "" then [s] else [])
  }

  /** `known_ssids`: the input cut at commas, each piece stripped, empty pieces dropped. */
  function KnownSsids(input: string): seq<string> {
    KnownList(Split(input, ','))
  }

  /** A known SSID is non-empty, has no surrounding whitespace and holds no comma. */
  lemma KnownSsidShape(input: string, s: string)
    requires s in KnownSsids(input)
    ensures s != "" && Strip(s) == s && ',' !in s
  {
    var pieces := Split(input, ',');
    var i :| 0 <= i < |pieces| && Stripped(pieces)[i] == s;
    assert s == Strip(pieces[i]);
    StripStripped(pieces[i]);
    if ',' in s {
      StripWithin(pieces[i], ',');
    }
  }

  /** Every piece of the input that is not blank after stripping is a known SSID. */
  lemma KnownSsidsListed(input: string, i: nat)
    requires i < |Split(input, ',')| && Strip(Split(input, ',')[i]) != ""
    ensures Strip(Split(input, ',')[i]) in KnownSsids(input)
  {
    assert Stripped(Split(input, ','))[i] == Strip(Split(input, ',')[i]);
  }

  /** The frame has two cells per row. */
  predicate TwoColumns(frame: seq<seq<Cell>>) {
    forall i :: 0 <= i < |frame| ==> |frame[i]| == 2
  }

  /** `dropna()`: the rows with both cells, as (ssid, bssid). */
  function CompletePairs(frame: seq<seq<Cell>>): seq<(string, string)>
    requires TwoColumns(frame)
    decreases |frame|
  {
    if frame == [] then []
    else
      var last := frame[|frame| - 1];
      CompletePairs(frame[..|frame| - 1]) + (if last[0].Some? && last[1].Some? then [(last[0].value, last[1].value)] else [])
  }

  /** A pair survives `dropna` exactly when some line had exactly these two fields. */
  lemma {:induction false} CompletePairsExactly(frame: seq<seq<Cell>>, rows: seq<seq<string>>, ssid: string, bssid: string)
    requires Holds(frame, rows, 2)
    ensures TwoColumns(frame)
    ensures (ssid, bssid) in CompletePairs(frame) <==> [ssid, bssid] in rows
    decreases |rows|
  {
    if rows != [] {
      var n := |rows| - 1;
      assert Holds(frame[..n], rows[..n], 2);
      CompletePairsExactly(frame[..n], rows[..n], ssid, bssid);
      assert frame == frame[..n] + [frame[n]];
      assert rows == rows[..n] + [rows[n]];
      var last := frame[n];
      if last[0].Some? && last[1].Some? {
        assert |rows[n]| == 2;
        if (last[0].value, last[1].value) == (ssid, bssid) {
          assert rows[n] == [ssid, bssid];
        }
      } else {
        assert |rows[n]| < 2;
        assert CompletePairs(frame) == CompletePairs(frame[..n]) + [] == CompletePairs(frame[..n]);
      }
    }
  }

  /** `df.dropna().drop_duplicates()`: each complete pair once, in first-seen order. */
  function Listing(frame: seq<seq<Cell>>): seq<(string, string)>
    requires TwoColumns(frame)
  {
    Distinct(CompletePairs(frame))
  }

  /** The `whitelist`, `attack_type` and `count` columns for one listed pair. */
  function Label(pair: (string, string), known: seq<string>): (row: ApRow)
    ensures row.ssid == pair.0 && row.bssid == pair.1
    ensures row.whitelist <==> pair.0 in known
    ensures row.attackType == (if row.whitelist then "known_ap" else "rogue_ap")
    ensures row.count == 1
  {
    var whitelist := pair.0 in known;
    ApRow(pair.0, pair.1, whitelist, if whitelist then "known_ap" else "rogue_ap", 1)
  }

  /** The listing `detect_rogue_ap` builds from the comma-split lines and the known SSIDs. */
  function ListAccessPoints(rows: seq<seq<string>>, known: seq<string>): (r: Result<seq<ApRow>>)
    ensures r.Ok? <==> Frame(rows, 2).Ok?
    ensures r.Err? ==> r.error == ColumnCountMismatch
  {
    match Frame(rows, 2)
    case Err(e) => Err(e)
    case Ok(frame) =>
      CompletePairsExactly(frame, rows, "", "");
      var pairs := Listing(frame);
      Ok(seq(|pairs|, k requires 0 <= k < |pairs| => Label(pairs[k], known)))
  }

  /** `detect_rogue_ap`, given the text tshark printed and the known-SSID input. */
  function DetectRogueAp(stdout: string, knownInput: string): Result<seq<ApRow>> {
    ListAccessPoints(FieldRows(stdout), KnownSsids(knownInput))
  }

  /** The listing holds each pair of a two-field line once, and nothing else. */
  lemma ListingExactly(frame: seq<seq<Cell>>, rows: seq<seq<string>>)
    requires Holds(frame, rows, 2)
    ensures TwoColumns(frame)
    ensures NoDuplicates(Listing(frame))
    ensures forall p :: p in Listing(frame) <==> [p.0, p.1] in rows
  {
    CompletePairsExactly(frame, rows, "", "");
    forall p
      ensures p in Listing(frame) <==> [p.0, p.1] in rows
    {
      DistinctMember(CompletePairs(frame), p);
      CompletePairsExactly(frame, rows, p.0, p.1);
    }
  }

  /** The rows of the listing, as (ssid, bssid) pairs, are the listed pairs. */
  lemma ListedRows(rows: seq<seq<string>>, known: seq<string>)
    requires ListAccessPoints(rows, known).Ok?
    ensures var r := ListAccessPoints(rows, known).value;
      var frame := Frame(rows, 2).value;
      && Holds(frame, rows, 2) && TwoColumns(frame)
      && |r| == |Listing(frame)|
      && forall k :: 0 <= k < |r| ==> r[k] == Label(Listing(frame)[k], known)
  {
    CompletePairsExactly(Frame(rows, 2).value, rows, "", "");
  }

  /**
   * Every access point is whitelisted exactly when its SSID is a known one, is
   * labelled "known_ap" if so and "rogue_ap" if not, and counts 1.
   */
  lemma RogueApLabels(rows: seq<seq<string>>, known: seq<string>)
    requires ListAccessPoints(rows, known).Ok?
    ensures var r := ListAccessPoints(rows, known).value;
      forall k :: 0 <= k < |r| ==>
        && (r[k].whitelist <==> r[k].ssid in known)
        && r[k].attackType == (if r[k].whitelist then "known_ap" else "rogue_ap")
        && r[k].count == 1
  {
    ListedRows(rows, known);
  }

  /**
   * The listing has one row per distinct line of exactly two fields and no
   * other row, and no (ssid, bssid) twice.
   */
  lemma RogueApListing(rows: seq<seq<string>>, known: seq<string>)
    requires ListAccessPoints(rows, known).Ok?
    ensures var r := ListAccessPoints(rows, known).value;
      && (forall k :: 0 <= k < |r| ==> [r[k].ssid, r[k].bssid] in rows)
      && (forall i :: 0 <= i < |rows| && |rows[i]| == 2 ==>
            exists k :: 0 <= k < |r| && [r[k].ssid, r[k].bssid] == rows[i])
      && (forall k, l :: 0 <= k < l < |r| ==> (r[k].ssid, r[k].bssid) != (r[l].ssid, r[l].bssid))
  {
    var r := ListAccessPoints(rows, known).value;
    ListedRows(rows, known);
    var frame := Frame(rows, 2).value;
    var pairs := Listing(frame);
    ListingExactly(frame, rows);
    forall i | 0 <= i < |rows| && |rows[i]| == 2
      ensures exists k :: 0 <= k < |r| && [r[k].ssid, r[k].bssid] == rows[i]
    {
      var p := (rows[i][0], rows[i][1]);
      assert rows[i] == [p.0, p.1];
      var k :| 0 <= k < |pairs| && pairs[k] == p;
      assert [r[k].ssid, r[k].bssid] == rows[i];
    }
    forall k, l | 0 <= k < l < |r|
      ensures (r[k].ssid, r[k].bssid) != (r[l].ssid, r[l].bssid)
    {
      assert (r[k].ssid, r[k].bssid) == pairs[k] && (r[l].ssid, r[l].bssid) == pairs[l];
    }
  }
}
