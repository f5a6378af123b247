/**
 * `detect_deauth` of WiFi/pyvip/pyvip_DeAuthAttackDetection.py: the
 * deauthentication frames are grouped by (source, BSSID) in ascending order,
 * and `count()` reports for each group its non-null destination cells and its
 * non-null `count` cells, which are both the size of the group; every group is
 * labelled "deauth".
 */
module PyvipDeauth {
  import opened Common
  import opened Grouping
  import opened PyvipFrame

  /** One row of the summary: the key columns, the counted `wlan.da` and `count` columns, `attack_type`. */
  datatype DeauthRow = DeauthRow(sa: string, bssid: string, da: nat, count: nat, attackType: string)

  predicate ThreeColumns(frame: seq<seq<Cell>>) {
    forall i :: 0 <= i < |frame| ==> |frame[i]| == 3
  }

  /** One frame row keyed `(sa, bssid)` with its destination cell; `groupby` drops a row whose key has a null cell. */
  function KeyedOf(cells: seq<Cell>): seq<(Key, Cell)>
    requires |cells| == 3
  {
    if cells[0].Some? && cells[2].Some? then [([cells[0].value, cells[2].value], cells[1])] else []
  }

  /** The rows `groupby(["wlan.sa", "wlan.bssid"])` keeps, keyed. */
  function KeyedRows(frame: seq<seq<Cell>>): seq<(Key, Cell)>
    requires ThreeColumns(frame)
    decreases |frame|
  {
    if frame == [] then [] else KeyedRows(frame[..|frame| - 1]) + KeyedOf(frame[|frame| - 1])
  }

  /** The groups, ascending. */
  function Groups(frame: seq<seq<Cell>>): seq<Key>
    requires ThreeColumns(frame)
  {
    SortedDistinct(Keys(KeyedRows(frame)))
  }

  /** A cell of a group key (`""` past its end). */
  function KeyPart(k: Key, j: nat): string {
    if j < |k| then k[j] else ""
  }

  /** `df.groupby(["wlan.sa", "wlan.bssid"]).count()` with the `attack_type` column. */
  function Summary(frame: seq<seq<Cell>>): seq<DeauthRow>
    requires ThreeColumns(frame)
  {
    var groups := Groups(frame);
    var ps := KeyedRows(frame);
    seq(|groups|, k requires 0 <= k < |groups| =>
      DeauthRow(KeyPart(groups[k], 0), KeyPart(groups[k], 1),
                |Select(Present(ps), groups[k])|, |Select(ps, groups[k])|, "deauth"))
  }

  /** The summary `detect_deauth` builds from the comma-split lines. */
  function SummarizeDeauth(rows: seq<seq<string>>): (r: Result<seq<DeauthRow>>)
    ensures r.Ok? <==> Frame(rows, 3).Ok?
    ensures r.Err? ==> r.error == ColumnCountMismatch
  {
    match Frame(rows, 3)
    case Err(e) => Err(e)
    case Ok(frame) =>
      assert ThreeColumns(frame);
      Ok(Summary(frame))
  }

  /** `detect_deauth`, given the text tshark printed. */
  function DetectDeauth(stdout: string): Result<seq<DeauthRow>> {
    SummarizeDeauth(FieldRows(stdout))
  }

  /** The (source, BSSID) key of each line that has all three fields, in line order. */
  function FullKeys(rows: seq<seq<string>>): seq<Key>
    decreases |rows|
  {
    if rows == [] then []
    else
      var last := rows[|rows| - 1];
      FullKeys(rows[..|rows| - 1]) + (if |last| == 3 then [[last[0], last[2]]] else [])
  }

  /** A line with a BSSID field has all three fields, so its destination cell is present. */
  lemma KeyedLine(fields: seq<string>)
    requires |fields| <= 3
    ensures Keys(KeyedOf(Pad(fields, 3))) == if |fields| == 3 then [[fields[0], fields[2]]] else []
    ensures forall i :: 0 <= i < |KeyedOf(Pad(fields, 3))| ==> KeyedOf(Pad(fields, 3))[i].1.Some?
  {
    if |fields| == 3 {
      KeysSnoc([], ([fields[0], fields[2]], Some(fields[1])));
    }
  }

  /** The kept rows' keys are the keys of the full lines, and every kept row has its destination cell. */
  lemma {:induction false} KeyedRowsExactly(frame: seq<seq<Cell>>, rows: seq<seq<string>>)
    requires Holds(frame, rows, 3)
    ensures ThreeColumns(frame)
    ensures Keys(KeyedRows(frame)) == FullKeys(rows)
    ensures forall i :: 0 <= i < |KeyedRows(frame)| ==> KeyedRows(frame)[i].1.Some?
    decreases |rows|
  {
    if rows != [] {
      var n := |rows| - 1;
      HoldsInit(frame, rows, 3);
      KeyedRowsExactly(frame[..n], rows[..n]);
      KeyedLine(rows[n]);
      KeysAppend(KeyedRows(frame[..n]), KeyedOf(frame[n]));
      var a: seq<(Key, Cell)> := KeyedRows(frame[..n]);
      var b: seq<(Key, Cell)> := KeyedOf(frame[n]);
      var ab: seq<(Key, Cell)> := a + b;
      assert KeyedRows(frame) == ab;
      forall i | 0 <= i < |ab|
        ensures ab[i].1.Some?
      {
        if i < |a| {
          assert ab[i] == a[i];
        } else {
          assert ab[i] == b[i - |a|];
        }
      }
    }
  }

  /** The summary of the lines is the summary of their frame. */
  lemma SummaryOfFrame(rows: seq<seq<string>>)
    requires SummarizeDeauth(rows).Ok?
    ensures Holds(Frame(rows, 3).value, rows, 3) && ThreeColumns(Frame(rows, 3).value)
    ensures SummarizeDeauth(rows).value == Summary(Frame(rows, 3).value)
  {
  }

  /** Every key of a full line has two cells. */
  lemma FullKeysPairs(rows: seq<seq<string>>, k: Key)
    requires k in FullKeys(rows)
    ensures |k| == 2
    decreases |rows|
  {
    var n := |rows| - 1;
    if k !in FullKeys(rows[..n]) {
      assert k == [rows[n][0], rows[n][2]];
    } else {
      FullKeysPairs(rows[..n], k);
    }
  }

  /** The groups are the (source, BSSID) keys of the full lines, ascending, each once. */
  lemma GroupsExactly(frame: seq<seq<Cell>>, rows: seq<seq<string>>)
    requires Holds(frame, rows, 3)
    ensures ThreeColumns(frame)
    ensures forall k :: k in Groups(frame) <==> k in FullKeys(rows)
    ensures forall k :: k in Groups(frame) ==> k == [KeyPart(k, 0), KeyPart(k, 1)]
    ensures Ascending(Groups(frame)) && NoDuplicates(Groups(frame))
  {
    KeyedRowsExactly(frame, rows);
    forall k | k in Groups(frame)
      ensures k == [KeyPart(k, 0), KeyPart(k, 1)]
    {
      FullKeysPairs(rows, k);
    }
    AscendingNoDuplicates(Groups(frame));
  }

  /** The `(wlan.sa, wlan.bssid)` columns of a summary. */
  function KeyColumns(summary: seq<DeauthRow>): (r: seq<Key>)
    ensures |r| == |summary|
  {
    seq(|summary|, k requires 0 <= k < |summary| => [summary[k].sa, summary[k].bssid])
  }

  /** The summary has one row per (source, BSSID) pair printed on a full line, ascending, each once. */
  lemma DeauthPairs(rows: seq<seq<string>>)
    requires SummarizeDeauth(rows).Ok?
    ensures var r := SummarizeDeauth(rows).value;
      && (forall k :: k in KeyColumns(r) <==> k in FullKeys(rows))
      && (forall k, l :: 0 <= k < l < |r| ==> KeyBelow(KeyColumns(r)[k], KeyColumns(r)[l]))
  {
    SummaryOfFrame(rows);
    var frame := Frame(rows, 3).value;
    var r := SummarizeDeauth(rows).value;
    GroupsExactly(frame, rows);
    var groups := Groups(frame);
    assert KeyColumns(r) == groups by {
      forall k | 0 <= k < |r|
        ensures KeyColumns(r)[k] == groups[k]
      {
        assert groups[k] in groups;
      }
    }
  }

  /** The total of `count` over a summary. */
  function CountTotal(summary: seq<DeauthRow>): nat {
    if summary == [] then 0 else summary[0].count + CountTotal(summary[1..])
  }

  lemma {:induction false} CountTotalIsTotalSize(summary: seq<DeauthRow>, ps: seq<(Key, Cell)>, keys: seq<Key>)
    requires |summary| == |keys|
    requires forall k :: 0 <= k < |keys| ==> summary[k].count == |Select(ps, keys[k])|
    ensures CountTotal(summary) == TotalSize(ps, keys)
    decreases |keys|
  {
    if keys != [] {
      CountTotalIsTotalSize(summary[1..], ps, keys[1..]);
    }
  }

  /** A group's kept rows are its full lines, and each of them has its destination cell. */
  lemma GroupSize(frame: seq<seq<Cell>>, rows: seq<seq<string>>, g: Key)
    requires Holds(frame, rows, 3)
    ensures ThreeColumns(frame)
    ensures |Select(KeyedRows(frame), g)| == multiset(FullKeys(rows))[g]
    ensures |Select(Present(KeyedRows(frame)), g)| == |Select(KeyedRows(frame), g)|
  {
    KeyedRowsExactly(frame, rows);
    SelectCount(KeyedRows(frame), g);
    PresentAll(KeyedRows(frame), g);
  }

  /** Every kept row belongs to a group, so the groups together hold all of them. */
  lemma GroupsCover(frame: seq<seq<Cell>>, rows: seq<seq<string>>)
    requires Holds(frame, rows, 3)
    ensures ThreeColumns(frame)
    ensures TotalSize(KeyedRows(frame), Groups(frame)) == |FullKeys(rows)|
  {
    GroupsExactly(frame, rows);
    KeyedRowsExactly(frame, rows);
    var ps := KeyedRows(frame);
    forall i | 0 <= i < |ps|
      ensures ps[i].0 in Groups(frame)
    {
      assert Keys(ps)[i] == ps[i].0;
    }
    TotalSizeCovers(ps, Groups(frame));
    assert |Keys(ps)| == |ps|;
  }

  /**
   * A group's `count` is the number of full lines with its (source, BSSID)
   * pair, its `wlan.da` column holds that same number rather than an
   * address, every row is labelled "deauth", and the counts add up to the
   * number of full lines: a line without a BSSID field is not counted.
   */
  lemma DeauthCounts(rows: seq<seq<string>>)
    requires SummarizeDeauth(rows).Ok?
    ensures var r := SummarizeDeauth(rows).value;
      && (forall k :: 0 <= k < |r| ==>
            && r[k].count == multiset(FullKeys(rows))[[r[k].sa, r[k].bssid]]
            && r[k].da == r[k].count
            && r[k].attackType == "deauth")
      && CountTotal(r) == |FullKeys(rows)|
  {
    SummaryOfFrame(rows);
    var frame := Frame(rows, 3).value;
    var r := SummarizeDeauth(rows).value;
    GroupsExactly(frame, rows);
    var groups := Groups(frame);
    forall k | 0 <= k < |r|
      ensures r[k].count == multiset(FullKeys(rows))[[r[k].sa, r[k].bssid]]
      ensures r[k].da == r[k].count
    {
      assert groups[k] in groups;
      assert groups[k] == [r[k].sa, r[k].bssid];
      GroupSize(frame, rows, groups[k]);
    }
    GroupsCover(frame, rows);
    CountTotalIsTotalSize(r, KeyedRows(frame), groups);
  }
}
