/**
 * `detect_eapol_replay` of WiFi/pyvip/pyvip_EAPOLReplayAttackDetection.py:
 * every EAPOL frame adds a `count` of 1 under its source address, the
 * counts are summed per source in ascending order of source, and every
 * source is labelled "eapol_replay". The time column is converted with
 * `errors="coerce"` and read by nothing after that.
 */
module PyvipEapolReplay {
  import opened Common
  import opened Grouping
  import opened PyvipFrame

  /** One row of the summary: `wlan.sa`, the summed `count` and `attack_type`. */
  datatype SourceRow = SourceRow(sa: string, count: int, attackType: string)

  predicate TwoColumns(frame: seq<seq<Cell>>) {
    forall i :: 0 <= i < |frame| ==> |frame[i]| == 2
  }

  /** The `count` cell of one frame row keyed `(sa,)`; a row without a source, which the group-by would drop, gives none. */
  function CountOf(cells: seq<Cell>): seq<(Key, int)>
    requires |cells| == 2
  {
    if cells[0].Some? then [([cells[0].value], 1)] else []
  }

  /** `df["count"] = 1`, keyed by source address. */
  function SourceCounts(frame: seq<seq<Cell>>): seq<(Key, int)>
    requires TwoColumns(frame)
    decreases |frame|
  {
    if frame == [] then [] else SourceCounts(frame[..|frame| - 1]) + CountOf(frame[|frame| - 1])
  }

  /** The sum of a group's `count` cells. */
  function SumOf(xs: seq<int>): int {
    if xs == [] then 0 else SumOf(xs[..|xs| - 1]) + xs[|xs| - 1]
  }

  /** The groups of `groupby("wlan.sa")`, ascending. */
  function Sources(frame: seq<seq<Cell>>): seq<Key>
    requires TwoColumns(frame)
  {
    SortedDistinct(Keys(SourceCounts(frame)))
  }

  /** The source of a group key `(sa,)`. */
  function SourceOf(k: Key): string {
    if k == [] then "" else k[0]
  }

  /** `df.groupby("wlan.sa")["count"].sum()` with the `attack_type` column. */
  function Summary(frame: seq<seq<Cell>>): seq<SourceRow>
    requires TwoColumns(frame)
  {
    var groups := Sources(frame);
    seq(|groups|, k requires 0 <= k < |groups| =>
      SourceRow(SourceOf(groups[k]), SumOf(Select(SourceCounts(frame), groups[k])), "eapol_replay"))
  }

  /** The summary `detect_eapol_replay` builds from the comma-split lines. */
  function SummarizeSources(rows: seq<seq<string>>): (r: Result<seq<SourceRow>>)
    ensures r.Ok? <==> Frame(rows, 2).Ok?
    ensures r.Err? ==> r.error == ColumnCountMismatch
  {
    match Frame(rows, 2)
    case Err(e) => Err(e)
    case Ok(frame) =>
      assert TwoColumns(frame);
      Ok(Summary(frame))
  }

  /** `detect_eapol_replay`, given the text tshark printed. */
  function DetectEapolReplay(stdout: string): Result<seq<SourceRow>> {
    SummarizeSources(FieldRows(stdout))
  }

  /** One frame row per line with a first field; its key is that field. */
  lemma CountOfLine(fields: seq<string>)
    requires |fields| <= 2
    ensures Keys(CountOf(Pad(fields, 2))) == if fields == [] then [] else [[fields[0]]]
  {
    if fields != [] {
      KeysSnoc([], ([fields[0]], 1));
    }
  }

  /** The one-column group keys `(x,)` of the values `xs`. */
  function OneKeys(xs: seq<string>): (r: seq<Key>)
    ensures |r| == |xs|
  {
    seq(|xs|, i requires 0 <= i < |xs| => [xs[i]])
  }

  lemma {:induction false} OneKeysCount(xs: seq<string>, x: string)
    ensures multiset(OneKeys(xs))[[x]] == multiset(xs)[x]
    ensures [x] in OneKeys(xs) <==> x in xs
    decreases |xs|
  {
    if xs != [] {
      var n := |xs| - 1;
      OneKeysCount(xs[..n], x);
      assert OneKeys(xs) == OneKeys(xs[..n]) + [[xs[n]]];
      assert xs == xs[..n] + [xs[n]];
    }
  }

  /** Every line has a first field. */
  predicate HasFields(rows: seq<seq<string>>) {
    forall i :: 0 <= i < |rows| ==> rows[i] != []
  }

  /** The group keys of the counts are the first fields of the lines, one per line, in line order. */
  lemma {:induction false} SourceKeys(frame: seq<seq<Cell>>, rows: seq<seq<string>>)
    requires Holds(frame, rows, 2) && HasFields(rows)
    ensures TwoColumns(frame)
    ensures Keys(SourceCounts(frame)) == OneKeys(Firsts(rows))
    decreases |rows|
  {
    if rows != [] {
      var n := |rows| - 1;
      HoldsInit(frame, rows, 2);
      SourceKeys(frame[..n], rows[..n]);
      FirstsInit(rows);
      CountOfLine(rows[n]);
      KeysAppend(SourceCounts(frame[..n]), CountOf(frame[n]));
      assert OneKeys(Firsts(rows)) == OneKeys(Firsts(rows[..n])) + [[First(rows[n])]];
    }
  }

  /** Every `count` cell is 1, so a sum of them is their number. */
  lemma {:induction false} SumOfOnes(ps: seq<(Key, int)>, k: Key)
    requires forall i :: 0 <= i < |ps| ==> ps[i].1 == 1
    ensures SumOf(Select(ps, k)) == |Select(ps, k)|
    decreases |ps|
  {
    if ps != [] {
      var p := ps[..|ps| - 1];
      SumOfOnes(p, k);
      var s := Select(p, k);
      if ps[|ps| - 1].0 == k {
        assert Select(ps, k) == s + [1];
        assert (s + [1])[..|s|] == s;
      } else {
        assert Select(ps, k) == s + [] == s;
      }
    }
  }

  lemma {:induction false} CountsAreOnes(frame: seq<seq<Cell>>)
    requires TwoColumns(frame)
    ensures forall i :: 0 <= i < |SourceCounts(frame)| ==> SourceCounts(frame)[i].1 == 1
    decreases |frame|
  {
    if frame != [] {
      CountsAreOnes(frame[..|frame| - 1]);
    }
  }

  /** A source's summed count is the number of lines printed with that source. */
  lemma SourceCountIsLines(frame: seq<seq<Cell>>, rows: seq<seq<string>>, sa: string)
    requires Holds(frame, rows, 2) && HasFields(rows)
    ensures TwoColumns(frame)
    ensures SumOf(Select(SourceCounts(frame), [sa])) == multiset(Firsts(rows))[sa]
  {
    SourceKeys(frame, rows);
    OneKeysCount(Firsts(rows), sa);
    CountsAreOnes(frame);
    SumOfOnes(SourceCounts(frame), [sa]);
    SelectCount(SourceCounts(frame), [sa]);
  }

  /** The summary of the lines is the summary of their frame. */
  lemma SummaryOfFrame(rows: seq<seq<string>>)
    requires SummarizeSources(rows).Ok?
    ensures Holds(Frame(rows, 2).value, rows, 2) && TwoColumns(Frame(rows, 2).value)
    ensures SummarizeSources(rows).value == Summary(Frame(rows, 2).value)
  {
  }

  /** The `wlan.sa` column of a summary. */
  function SourceColumn(summary: seq<SourceRow>): (r: seq<string>)
    ensures |r| == |summary|
  {
    seq(|summary|, k requires 0 <= k < |summary| => summary[k].sa)
  }

  /** The groups are the one-field keys of the first fields, ascending, each once. */
  lemma SourcesExactly(frame: seq<seq<Cell>>, rows: seq<seq<string>>, sa: string)
    requires Holds(frame, rows, 2) && HasFields(rows)
    ensures TwoColumns(frame)
    ensures [sa] in Sources(frame) <==> sa in Firsts(rows)
    ensures forall g :: g in Sources(frame) ==> g == [SourceOf(g)]
    ensures Ascending(Sources(frame)) && NoDuplicates(Sources(frame))
  {
    SourceKeys(frame, rows);
    OneKeysCount(Firsts(rows), sa);
    forall g | g in Sources(frame)
      ensures g == [SourceOf(g)]
    {
      var i :| 0 <= i < |OneKeys(Firsts(rows))| && OneKeys(Firsts(rows))[i] == g;
    }
    AscendingNoDuplicates(Sources(frame));
  }

  /** The summary has one row per source printed, and no other. */
  lemma EapolSources(rows: seq<seq<string>>, sa: string)
    requires SummarizeSources(rows).Ok? && HasFields(rows)
    ensures sa in SourceColumn(SummarizeSources(rows).value) <==> sa in Firsts(rows)
  {
    SummaryOfFrame(rows);
    var frame := Frame(rows, 2).value;
    var r := SummarizeSources(rows).value;
    var groups := Sources(frame);
    SourcesExactly(frame, rows, sa);
    if sa in SourceColumn(r) {
      var k :| 0 <= k < |r| && SourceColumn(r)[k] == sa;
      assert groups[k] in groups;
      assert groups[k] == [sa];
    }
    if [sa] in groups {
      var k :| 0 <= k < |groups| && groups[k] == [sa];
      assert SourceColumn(r)[k] == sa;
    }
  }

  /** The summary lists the sources in ascending order, so each once. */
  lemma EapolOrder(rows: seq<seq<string>>)
    requires SummarizeSources(rows).Ok? && HasFields(rows)
    ensures var r := SummarizeSources(rows).value;
      forall k, l :: 0 <= k < l < |r| ==> StrBelow(r[k].sa, r[l].sa)
  {
    SummaryOfFrame(rows);
    var frame := Frame(rows, 2).value;
    var r := SummarizeSources(rows).value;
    var groups := Sources(frame);
    SourcesExactly(frame, rows, "");
    forall k, l | 0 <= k < l < |r|
      ensures StrBelow(r[k].sa, r[l].sa)
    {
      assert KeyBelow(groups[k], groups[l]);
      assert groups[k] in groups && groups[l] in groups;
      assert groups[k] == [r[k].sa] && groups[l] == [r[l].sa];
    }
  }

  /** The total of `count` over a summary. */
  function CountTotal(summary: seq<SourceRow>): int {
    if summary == [] then 0 else summary[0].count + CountTotal(summary[1..])
  }

  lemma {:induction false} CountTotalIsTotalSize(summary: seq<SourceRow>, ps: seq<(Key, int)>, keys: seq<Key>)
    requires |summary| == |keys|
    requires forall k :: 0 <= k < |keys| ==> summary[k].count == |Select(ps, keys[k])|
    ensures CountTotal(summary) == TotalSize(ps, keys)
    decreases |keys|
  {
    if keys != [] {
      CountTotalIsTotalSize(summary[1..], ps, keys[1..]);
    }
  }

  /**
   * A source's `count` is the number of lines printed with that source, every
   * row is labelled "eapol_replay", and the counts add up to the number of
   * lines: no line is lost, whatever its time field holds.
   */
  lemma EapolCounts(rows: seq<seq<string>>)
    requires SummarizeSources(rows).Ok? && HasFields(rows)
    ensures var r := SummarizeSources(rows).value;
      && (forall k :: 0 <= k < |r| ==> r[k].count == multiset(Firsts(rows))[r[k].sa] && r[k].attackType == "eapol_replay")
      && CountTotal(r) == |rows|
  {
    SummaryOfFrame(rows);
    var frame := Frame(rows, 2).value;
    var r := SummarizeSources(rows).value;
    var groups := Sources(frame);
    var ps := SourceCounts(frame);
    SourcesExactly(frame, rows, "");
    CountsAreOnes(frame);
    forall k | 0 <= k < |r|
      ensures r[k].count == multiset(Firsts(rows))[r[k].sa] && r[k].count == |Select(ps, groups[k])|
    {
      assert groups[k] in groups;
      assert groups[k] == [r[k].sa];
      SourceCountIsLines(frame, rows, r[k].sa);
      SumOfOnes(ps, groups[k]);
    }
    forall i | 0 <= i < |ps|
      ensures ps[i].0 in groups
    {
      assert Keys(ps)[i] == ps[i].0;
    }
    TotalSizeCovers(ps, groups);
    CountTotalIsTotalSize(r, ps, groups);
    SourceKeys(frame, rows);
  }

  /** The time column is read by nothing: frames that agree on their source cells have the same summary. */
  lemma {:induction false} TimeIgnored(frame: seq<seq<Cell>>, other: seq<seq<Cell>>)
    requires TwoColumns(frame) && TwoColumns(other) && |frame| == |other|
    requires forall i :: 0 <= i < |frame| ==> frame[i][0] == other[i][0]
    ensures SourceCounts(frame) == SourceCounts(other)
    ensures Summary(frame) == Summary(other)
    decreases |frame|
  {
    if frame != [] {
      var n := |frame| - 1;
      TimeIgnored(frame[..n], other[..n]);
    }
  }
}
