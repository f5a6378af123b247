/**
 * `detect_evil_twin` of WiFi/pyvip/pyvip_EvilTwinDetection.py: rows with an
 * empty SSID are dropped, duplicate (SSID, BSSID) rows are dropped, and the
 * rest are grouped by SSID in ascending order; each group reports how many
 * non-null BSSIDs it holds, and every group is labelled "evil_twin".
 */
module PyvipEvilTwin {
  import opened Common
  import opened Grouping
  import opened PyvipFrame

  /** One row of the summary: SSID, `bssid_count` and `attack_type`. */
  datatype TwinRow = TwinRow(ssid: string, bssidCount: nat, attackType: string)

  predicate TwoColumns(frame: seq<seq<Cell>>) {
    forall i :: 0 <= i < |frame| ==> |frame[i]| == 2
  }

  /** The named row a frame row gives: none when its SSID cell is empty or missing. */
  function Named(cells: seq<Cell>): seq<(Key, Cell)>
    requires |cells| == 2
  {
    if cells[0].Some? && cells[0].value != "" then [([cells[0].value], cells[1])] else []
  }

  /**
   * `df[df["wlan.ssid"] != ""]`, each row keyed `(ssid,)` with its BSSID cell.
   * A row without an SSID cell, which the group-by would drop, is dropped here.
   */
  function NamedRows(frame: seq<seq<Cell>>): seq<(Key, Cell)>
    requires TwoColumns(frame)
    decreases |frame|
  {
    if frame == [] then [] else NamedRows(frame[..|frame| - 1]) + Named(frame[|frame| - 1])
  }

  /** The line that gives the named row `((ssid,), cell)`. */
  function LineFor(ssid: string, c: Cell): seq<string> {
    if c.Some? then [ssid, c.value] else [ssid]
  }

  lemma NamedLine(fields: seq<string>, k: Key, c: Cell)
    requires |fields| <= 2
    ensures (k, c) in Named(Pad(fields, 2)) <==> |k| == 1 && k[0] != "" && LineFor(k[0], c) == fields
    ensures k in Keys(Named(Pad(fields, 2))) <==> |k| == 1 && k[0] != "" && First(fields) == k[0]
  {
    var cells := Pad(fields, 2);
    if |k| == 1 && k[0] != "" && LineFor(k[0], c) == fields {
      assert cells[0] == Some(k[0]) && cells[1] == c;
      assert k == [k[0]];
    }
    if |k| == 1 && k[0] != "" && First(fields) == k[0] {
      assert k == [cells[0].value];
    }
  }

  /** A named row is a line with a non-empty first field; its BSSID cell is the second field, `None` if the line has one field. */
  lemma {:induction false} NamedRowsExactly(frame: seq<seq<Cell>>, rows: seq<seq<string>>, k: Key, c: Cell)
    requires Holds(frame, rows, 2)
    ensures TwoColumns(frame)
    ensures (k, c) in NamedRows(frame) <==> |k| == 1 && k[0] != "" && LineFor(k[0], c) in rows
    decreases |rows|
  {
    if rows != [] {
      var n := |rows| - 1;
      HoldsInit(frame, rows, 2);
      NamedRowsExactly(frame[..n], rows[..n], k, c);
      NamedLine(rows[n], k, c);
    }
  }

  /** The keys of the named rows are the one-field keys of the non-empty first fields. */
  lemma {:induction false} NamedKeys(frame: seq<seq<Cell>>, rows: seq<seq<string>>, k: Key)
    requires Holds(frame, rows, 2)
    ensures TwoColumns(frame)
    ensures k in Keys(NamedRows(frame)) <==> |k| == 1 && k[0] != "" && k[0] in Firsts(rows)
    decreases |rows|
  {
    if rows != [] {
      var n := |rows| - 1;
      HoldsInit(frame, rows, 2);
      NamedKeys(frame[..n], rows[..n], k);
      FirstsInit(rows);
      NamedLine(rows[n], k, None);
      KeysAppend(NamedRows(frame[..n]), Named(frame[n]));
    }
  }

  /** `drop_duplicates()`: each (ssid, bssid cell) row once. */
  function Deduped(frame: seq<seq<Cell>>): seq<(Key, Cell)>
    requires TwoColumns(frame)
  {
    Distinct(NamedRows(frame))
  }

  /** The distinct (ssid, bssid) pairs that remain: those `count()` adds up. */
  function Counted(frame: seq<seq<Cell>>): seq<(Key, string)>
    requires TwoColumns(frame)
  {
    Present(Deduped(frame))
  }

  /** The groups of `groupby("wlan.ssid")`, ascending. */
  function SsidGroups(frame: seq<seq<Cell>>): seq<Key>
    requires TwoColumns(frame)
  {
    SortedDistinct(Keys(Deduped(frame)))
  }

  /** The SSID of a group key `(ssid,)`. */
  function SsidOf(k: Key): string {
    if k == [] then "" else k[0]
  }

  /** The summary of a two-column frame: one row per group, with its non-null BSSID count. */
  function Summary(frame: seq<seq<Cell>>): seq<TwinRow>
    requires TwoColumns(frame)
  {
    var groups := SsidGroups(frame);
    seq(|groups|, k requires 0 <= k < |groups| =>
      TwinRow(SsidOf(groups[k]), |Select(Counted(frame), groups[k])|, "evil_twin"))
  }

  /** The summary `detect_evil_twin` builds from the comma-split lines. */
  function SummarizeTwins(rows: seq<seq<string>>): (r: Result<seq<TwinRow>>)
    ensures r.Ok? <==> Frame(rows, 2).Ok?
    ensures r.Err? ==> r.error == ColumnCountMismatch
  {
    match Frame(rows, 2)
    case Err(e) => Err(e)
    case Ok(frame) =>
      NamedKeys(frame, rows, []);
      Ok(Summary(frame))
  }

  /** `detect_evil_twin`, given the text tshark printed. */
  function DetectEvilTwin(stdout: string): Result<seq<TwinRow>> {
    SummarizeTwins(FieldRows(stdout))
  }

  /** The distinct BSSIDs printed with `ssid` on lines of exactly two fields. */
  function BssidsOf(rows: seq<seq<string>>, ssid: string): set<string> {
    set i | 0 <= i < |rows| && |rows[i]| == 2 && rows[i][0] == ssid :: rows[i][1]
  }

  /** A counted pair is exactly a two-field line with a non-empty SSID; none is counted twice. */
  lemma CountedExactly(frame: seq<seq<Cell>>, rows: seq<seq<string>>, k: Key, b: string)
    requires Holds(frame, rows, 2)
    ensures TwoColumns(frame)
    ensures NoDuplicates(Counted(frame))
    ensures (k, b) in Counted(frame) <==> |k| == 1 && k[0] != "" && [k[0], b] in rows
  {
    NamedRowsExactly(frame, rows, k, Some(b));
    PresentMember(Deduped(frame), k, b);
    DistinctMember(NamedRows(frame), (k, Some(b)));
    PresentNoDuplicates(Deduped(frame));
  }

  /** `bssid_count` is the number of distinct BSSIDs seen with the SSID. */
  lemma BssidCountIsDistinct(frame: seq<seq<Cell>>, rows: seq<seq<string>>, ssid: string)
    requires Holds(frame, rows, 2) && ssid != ""
    ensures TwoColumns(frame)
    ensures |Select(Counted(frame), [ssid])| == |BssidsOf(rows, ssid)|
  {
    CountedExactly(frame, rows, [ssid], "");
    var vs := Select(Counted(frame), [ssid]);
    SelectNoDuplicates(Counted(frame), [ssid]);
    NoDuplicatesCardinality(vs);
    forall b
      ensures b in vs <==> b in BssidsOf(rows, ssid)
    {
      SelectMember(Counted(frame), [ssid], b);
      CountedExactly(frame, rows, [ssid], b);
      if [ssid, b] in rows {
        var i :| 0 <= i < |rows| && rows[i] == [ssid, b];
        assert b == rows[i][1];
      }
      if b in BssidsOf(rows, ssid) {
        var i :| 0 <= i < |rows| && |rows[i]| == 2 && rows[i][0] == ssid && rows[i][1] == b;
        assert rows[i] == [ssid, b];
      }
    }
    assert (set b | b in vs) == BssidsOf(rows, ssid);
  }

  /** The groups are the non-empty first fields, one-field keys, ascending, each once. */
  lemma SsidGroupsExactly(frame: seq<seq<Cell>>, rows: seq<seq<string>>, ssid: string)
    requires Holds(frame, rows, 2)
    ensures TwoColumns(frame)
    ensures [ssid] in SsidGroups(frame) <==> ssid != "" && ssid in Firsts(rows)
    ensures forall g :: g in SsidGroups(frame) ==> g == [SsidOf(g)] && SsidOf(g) != ""
    ensures Ascending(SsidGroups(frame)) && NoDuplicates(SsidGroups(frame))
  {
    NamedKeys(frame, rows, [ssid]);
    DistinctMember(NamedRows(frame), ([ssid], None));
    forall g | g in SsidGroups(frame)
      ensures g == [SsidOf(g)] && SsidOf(g) != ""
    {
      NamedKeys(frame, rows, g);
      DedupedKeys(frame, g);
    }
    DedupedKeys(frame, [ssid]);
    AscendingNoDuplicates(SsidGroups(frame));
  }

  /** Dropping duplicate rows drops no key. */
  lemma DedupedKeys(frame: seq<seq<Cell>>, k: Key)
    requires TwoColumns(frame)
    ensures k in Keys(Deduped(frame)) <==> k in Keys(NamedRows(frame))
  {
    var named := NamedRows(frame);
    var d := Deduped(frame);
    if k in Keys(d) {
      var i :| 0 <= i < |d| && Keys(d)[i] == k;
      DistinctMember(named, d[i]);
      var j :| 0 <= j < |named| && named[j] == d[i];
      assert Keys(named)[j] == k;
    }
    if k in Keys(named) {
      var j :| 0 <= j < |named| && Keys(named)[j] == k;
      DistinctMember(named, named[j]);
      var i :| 0 <= i < |d| && d[i] == named[j];
      assert Keys(d)[i] == k;
    }
  }

  /** The total of `bssid_count` over a summary. */
  function BssidTotal(summary: seq<TwinRow>): nat {
    if summary == [] then 0 else summary[0].bssidCount + BssidTotal(summary[1..])
  }

  lemma {:induction false} BssidTotalIsTotalSize(summary: seq<TwinRow>, ps: seq<(Key, string)>, keys: seq<Key>)
    requires |summary| == |keys|
    requires forall k :: 0 <= k < |keys| ==> summary[k].bssidCount == |Select(ps, keys[k])|
    ensures BssidTotal(summary) == TotalSize(ps, keys)
    decreases |keys|
  {
    if keys != [] {
      BssidTotalIsTotalSize(summary[1..], ps, keys[1..]);
    }
  }

  /** The counts add up to the number of distinct (ssid, bssid) pairs left after the filter. */
  lemma BssidCountsAddUp(frame: seq<seq<Cell>>)
    requires TwoColumns(frame)
    ensures BssidTotal(Summary(frame)) == |Counted(frame)|
  {
    var groups := SsidGroups(frame);
    var ps := Counted(frame);
    AscendingNoDuplicates(groups);
    forall i | 0 <= i < |ps|
      ensures ps[i].0 in groups
    {
      assert Keys(ps)[i] == ps[i].0;
      PresentKeys(Deduped(frame), ps[i].0);
    }
    TotalSizeCovers(ps, groups);
    BssidTotalIsTotalSize(Summary(frame), ps, groups);
  }

  /** The summary of the lines is the summary of their frame. */
  lemma SummaryOfFrame(rows: seq<seq<string>>)
    requires SummarizeTwins(rows).Ok?
    ensures Holds(Frame(rows, 2).value, rows, 2) && TwoColumns(Frame(rows, 2).value)
    ensures SummarizeTwins(rows).value == Summary(Frame(rows, 2).value)
  {
    NamedKeys(Frame(rows, 2).value, rows, []);
  }

  /** The `wlan.ssid` column of a summary. */
  function SsidColumn(summary: seq<TwinRow>): (r: seq<string>)
    ensures |r| == |summary|
  {
    seq(|summary|, k requires 0 <= k < |summary| => summary[k].ssid)
  }

  /** The summary has one row per non-empty SSID printed, and no other. */
  lemma EvilTwinSsids(rows: seq<seq<string>>, ssid: string)
    requires SummarizeTwins(rows).Ok?
    ensures ssid in SsidColumn(SummarizeTwins(rows).value) <==> ssid != "" && ssid in Firsts(rows)
  {
    SummaryOfFrame(rows);
    var frame := Frame(rows, 2).value;
    var r := SummarizeTwins(rows).value;
    var groups := SsidGroups(frame);
    SsidGroupsExactly(frame, rows, ssid);
    if ssid in SsidColumn(r) {
      var k :| 0 <= k < |r| && SsidColumn(r)[k] == ssid;
      assert groups[k] in groups;
      assert groups[k] == [ssid];
    }
    if [ssid] in groups {
      var k :| 0 <= k < |groups| && groups[k] == [ssid];
      assert SsidColumn(r)[k] == ssid;
    }
  }

  /** The summary lists the SSIDs in ascending order, so each once. */
  lemma EvilTwinOrder(rows: seq<seq<string>>)
    requires SummarizeTwins(rows).Ok?
    ensures var r := SummarizeTwins(rows).value;
      forall k, l :: 0 <= k < l < |r| ==> StrBelow(r[k].ssid, r[l].ssid)
  {
    SummaryOfFrame(rows);
    var frame := Frame(rows, 2).value;
    var r := SummarizeTwins(rows).value;
    var groups := SsidGroups(frame);
    SsidGroupsExactly(frame, rows, "");
    forall k, l | 0 <= k < l < |r|
      ensures StrBelow(r[k].ssid, r[l].ssid)
    {
      assert KeyBelow(groups[k], groups[l]);
      assert groups[k] in groups && groups[l] in groups;
      assert groups[k] == [r[k].ssid] && groups[l] == [r[l].ssid];
    }
  }

  /**
   * A row's `bssid_count` is the number of distinct BSSIDs printed with its
   * SSID (0 when no line of the SSID has a BSSID field), every row is labelled
   * "evil_twin", and the counts add up to the distinct (ssid, bssid) pairs.
   */
  lemma EvilTwinCounts(rows: seq<seq<string>>)
    requires SummarizeTwins(rows).Ok?
    ensures var r := SummarizeTwins(rows).value;
      && (forall k :: 0 <= k < |r| ==> r[k].bssidCount == |BssidsOf(rows, r[k].ssid)| && r[k].attackType == "evil_twin")
      && BssidTotal(r) == |Counted(Frame(rows, 2).value)|
  {
    SummaryOfFrame(rows);
    var frame := Frame(rows, 2).value;
    var r := SummarizeTwins(rows).value;
    var groups := SsidGroups(frame);
    SsidGroupsExactly(frame, rows, "");
    forall k | 0 <= k < |r|
      ensures r[k].bssidCount == |BssidsOf(rows, r[k].ssid)|
    {
      assert groups[k] in groups;
      assert groups[k] == [r[k].ssid];
      BssidCountIsDistinct(frame, rows, r[k].ssid);
    }
    BssidCountsAddUp(frame);
  }
}
