/**
 * `build_temporal_profiles` of
 * WiFi/MACRandomization/Temporal_Clustering/tshark_Temporal_Clustering.py:
 * rows with both a MAC and a time are grouped by MAC (pandas visits groups in
 * ascending key order), each group's times are sorted, and the group becomes a
 * profile of its frame count, its span and the mean gap between frames. Times
 * are exact reals here.
 */
module TemporalProfiles {
  import opened Common
  import opened Text
  import opened Grouping

  /** One row of `temporal_data.csv` as `read_csv` left it (NaN is `None`). */
  datatype TimeRow = TimeRow(mac: Option<string>, time: Option<real>)

  /** One entry of `profiles`; `std_gap` is not part of this model. */
  datatype Profile = Profile(mac: string, meanGap: real, totalTime: real, frameCount: nat)

  /** The rows `dropna(subset=["mac", "time"])` keeps, keyed by the one-column group key `(mac,)`. */
  function Retained(rows: seq<TimeRow>): (r: seq<(Key, real)>)
    ensures |r| <= |rows|
  {
    if rows == [] then []
    else
      var last := rows[|rows| - 1];
      Retained(rows[..|rows| - 1]) + (if last.mac.Some? && last.time.Some? then [([last.mac.value], last.time.value)] else [])
  }

  /** The number of rows with both cells present. */
  function CompleteRows(rows: seq<TimeRow>): nat {
    if rows == [] then 0
    else CompleteRows(rows[..|rows| - 1]) + (if rows[|rows| - 1].mac.Some? && rows[|rows| - 1].time.Some? then 1 else 0)
  }

  /** `dropna` keeps exactly the complete rows, and only those. */
  lemma {:induction false} RetainedCount(rows: seq<TimeRow>)
    ensures |Retained(rows)| == CompleteRows(rows)
    decreases |rows|
  {
    if rows != [] {
      RetainedCount(rows[..|rows| - 1]);
    }
  }

  /** The MAC of a one-column group key `(mac,)`. */
  function MacOf(k: Key): string {
    if k == [] then "" else k[0]
  }

  /** The group keys `df.groupby("mac")` visits: each MAC once, ascending. */
  function Groups(rows: seq<TimeRow>): seq<Key> {
    SortedDistinct(Keys(Retained(rows)))
  }

  /** Some row has `mac` and a time. */
  predicate HasCompleteRow(rows: seq<TimeRow>, mac: string) {
    exists i :: 0 <= i < |rows| && rows[i].mac == Some(mac) && rows[i].time.Some?
  }

  lemma HasCompleteRowSnoc(rows: seq<TimeRow>, mac: string)
    requires rows != []
    ensures var last := rows[|rows| - 1];
      HasCompleteRow(rows, mac) <==>
        HasCompleteRow(rows[..|rows| - 1], mac) || (last.mac == Some(mac) && last.time.Some?)
  {
    var init := rows[..|rows| - 1];
    if HasCompleteRow(init, mac) {
      var i :| 0 <= i < |init| && init[i].mac == Some(mac) && init[i].time.Some?;
      assert rows[i] == init[i];
    }
    if HasCompleteRow(rows, mac) {
      var i :| 0 <= i < |rows| && rows[i].mac == Some(mac) && rows[i].time.Some?;
      if i < |init| {
        assert rows[i] == init[i];
      }
    }
  }

  /** The kept rows' keys are the one-column keys of the MACs that have a row with a time. */
  lemma {:induction false} RetainedKeys(rows: seq<TimeRow>, k: Key)
    ensures k in Keys(Retained(rows)) <==> |k| == 1 && HasCompleteRow(rows, k[0])
    decreases |rows|
  {
    if rows != [] {
      var init := rows[..|rows| - 1];
      var last := rows[|rows| - 1];
      RetainedKeys(init, k);
      if |k| == 1 {
        HasCompleteRowSnoc(rows, k[0]);
      }
      if last.mac.Some? && last.time.Some? {
        KeysSnoc(Retained(init), ([last.mac.value], last.time.value));
        assert Retained(rows) == Retained(init) + [([last.mac.value], last.time.value)];
        if |k| == 1 && k[0] == last.mac.value {
          assert k == [last.mac.value];
        }
      } else {
        assert Retained(rows) == Retained(init) + [] == Retained(init);
      }
    }
  }

  /** There is one group per MAC that has a row with a time, each visited once, in ascending order. */
  lemma GroupsExactly(rows: seq<TimeRow>, mac: string)
    ensures [mac] in Groups(rows) <==> HasCompleteRow(rows, mac)
    ensures forall g :: g in Groups(rows) ==> g == [MacOf(g)]
    ensures NoDuplicates(Groups(rows)) && Grouping.Ascending(Groups(rows))
  {
    RetainedKeys(rows, [mac]);
    forall g | g in Groups(rows)
      ensures g == [MacOf(g)]
    {
      RetainedKeys(rows, g);
    }
    AscendingNoDuplicates(Groups(rows));
  }

  predicate Chronological(t: seq<real>) {
    forall i, j :: 0 <= i < j < |t| ==> t[i] <= t[j]
  }

  /** Puts `x` at its place in an ascending list. */
  function InsertTime(t: seq<real>, x: real): seq<real> {
    if t == [] then [x]
    else if x <= t[0] then [x] + t
    else [t[0]] + InsertTime(t[1..], x)
  }

  lemma {:induction false} InsertTimeMultiset(t: seq<real>, x: real)
    ensures multiset(InsertTime(t, x)) == multiset(t) + multiset{x}
    decreases |t|
  {
    if t != [] && x > t[0] {
      InsertTimeMultiset(t[1..], x);
      assert t == [t[0]] + t[1..];
    }
  }

  lemma {:induction false} InsertTimeChronological(t: seq<real>, x: real)
    requires Chronological(t)
    ensures Chronological(InsertTime(t, x))
    decreases |t|
  {
    if t != [] {
      if x <= t[0] {
        PrependChronological(x, t);
      } else {
        var rest := InsertTime(t[1..], x);
        InsertTimeChronological(t[1..], x);
        InsertTimeMultiset(t[1..], x);
        forall y | y in rest
          ensures t[0] <= y
        {
          assert y in multiset(rest);
          if y != x {
            assert y in multiset(t[1..]);
            var k :| 0 <= k < |t| - 1 && t[1..][k] == y;
            assert t[k + 1] == y;
          }
        }
        PrependChronological(t[0], rest);
      }
    }
  }

  /** A time no later than every time of an ascending list can go in front of it. */
  lemma PrependChronological(x: real, t: seq<real>)
    requires Chronological(t)
    requires forall y :: y in t ==> x <= y
    ensures Chronological([x] + t)
  {
    var r := [x] + t;
    forall i, j | 0 <= i < j < |r|
      ensures r[i] <= r[j]
    {
      assert r[j] == t[j - 1];
      if i > 0 {
        assert r[i] == t[i - 1];
      } else {
        assert t[j - 1] in t;
      }
    }
  }

  /** `sort_values()`: insertion of each time in turn. */
  function SortTimes(times: seq<real>): seq<real> {
    if times == [] then []
    else InsertTime(SortTimes(times[..|times| - 1]), times[|times| - 1])
  }

  /** `sort_values()` returns the same times, ascending. */
  lemma {:induction false} SortTimesCorrect(times: seq<real>)
    ensures Chronological(SortTimes(times)) && multiset(SortTimes(times)) == multiset(times)
    decreases |times|
  {
    if times != [] {
      var init := times[..|times| - 1];
      SortTimesCorrect(init);
      InsertTimeChronological(SortTimes(init), times[|times| - 1]);
      InsertTimeMultiset(SortTimes(init), times[|times| - 1]);
      assert times == init + [times[|times| - 1]];
    }
  }

  /** `np.diff(times)`: the gap before each frame after the first. */
  function Gaps(t: seq<real>): (r: seq<real>)
    ensures |t| >= 1 ==> |r| == |t| - 1
  {
    if |t| < 2 then [] else Gaps(t[..|t| - 1]) + [t[|t| - 1] - t[|t| - 2]]
  }

  function Sum(xs: seq<real>): real {
    if xs == [] then 0.0 else Sum(xs[..|xs| - 1]) + xs[|xs| - 1]
  }

  /** `np.mean` of a non-empty list. */
  function Mean(xs: seq<real>): real
    requires xs != []
  {
    Sum(xs) / |xs| as real
  }

  /** The gaps telescope: together they span from the first frame to the last. */
  lemma {:induction false} GapsTelescope(t: seq<real>)
    requires |t| >= 1
    ensures Sum(Gaps(t)) == t[|t| - 1] - t[0]
    decreases |t|
  {
    if |t| >= 2 {
      var init := t[..|t| - 1];
      GapsTelescope(init);
      assert Gaps(t)[..|Gaps(t)| - 1] == Gaps(init);
    }
  }

  /** The profile of one group: `mac` is the group's MAC, `times` its times in row order. */
  function ProfileOf(mac: string, times: seq<real>): Profile {
    var t := SortTimes(times);
    if |t| > 1 then Profile(Lower(mac), Mean(Gaps(t)), t[|t| - 1] - t[0], |t|)
    else Profile(Lower(mac), 0.0, 0.0, |t|)
  }

  /**
   * The profile counts the group's frames, its span is not negative, and its
   * mean gap times the number of gaps is that span; a lone frame gets a zero
   * span and a zero mean gap.
   */
  lemma ProfileCounts(mac: string, times: seq<real>)
    ensures var p := ProfileOf(mac, times);
      && p.mac == Lower(mac)
      && p.frameCount == |times|
      && p.totalTime >= 0.0
      && (|times| > 1 ==> p.meanGap == p.totalTime / (|times| - 1) as real)
      && (|times| <= 1 ==> p.meanGap == 0.0 && p.totalTime == 0.0)
  {
    var t := SortTimes(times);
    SortTimesCorrect(times);
    assert |t| == |times| by {
      assert |multiset(t)| == |multiset(times)|;
    }
    if |t| > 1 {
      GapsTelescope(t);
    }
  }

  /** The span is the distance from the earliest to the latest time of the group, in row order. */
  lemma ProfileSpan(mac: string, times: seq<real>)
    ensures var p := ProfileOf(mac, times);
      && (forall i, j :: 0 <= i < |times| && 0 <= j < |times| ==> times[i] - times[j] <= p.totalTime)
      && (|times| > 0 ==> exists i, j :: 0 <= i < |times| && 0 <= j < |times| && times[i] - times[j] == p.totalTime)
  {
    var t := SortTimes(times);
    var p := ProfileOf(mac, times);
    SortTimesCorrect(times);
    assert |t| == |times| by {
      assert |multiset(t)| == |multiset(times)|;
    }
    forall i, j | 0 <= i < |times| && 0 <= j < |times|
      ensures times[i] - times[j] <= p.totalTime
    {
      assert times[i] in multiset(t) && times[j] in multiset(t);
      var a :| 0 <= a < |t| && t[a] == times[i];
      var b :| 0 <= b < |t| && t[b] == times[j];
      assert t[0] <= t[b] && t[a] <= t[|t| - 1];
    }
    if |t| > 0 {
      assert t[0] in multiset(times) && t[|t| - 1] in multiset(times);
      var i :| 0 <= i < |times| && times[i] == t[|t| - 1];
      var j :| 0 <= j < |times| && times[j] == t[0];
      assert times[i] - times[j] == p.totalTime;
    }
  }

  /** The frame counts of `profiles`, added up. */
  function FrameTotal(profiles: seq<Profile>): nat {
    if profiles == [] then 0 else profiles[0].frameCount + FrameTotal(profiles[1..])
  }

  lemma {:induction false} FrameTotalIsTotalSize(profiles: seq<Profile>, pairs: seq<(Key, real)>, keys: seq<Key>)
    requires |profiles| == |keys|
    requires forall k :: 0 <= k < |keys| ==> profiles[k].frameCount == |Select(pairs, keys[k])|
    ensures FrameTotal(profiles) == TotalSize(pairs, keys)
    decreases |keys|
  {
    if keys != [] {
      FrameTotalIsTotalSize(profiles[1..], pairs, keys[1..]);
    }
  }

  /** Grouping neither loses nor invents a row: every retained row lands in exactly one group. */
  lemma GroupsCoverRows(rows: seq<TimeRow>)
    ensures TotalSize(Retained(rows), Groups(rows)) == CompleteRows(rows)
  {
    var pairs := Retained(rows);
    AscendingNoDuplicates(Groups(rows));
    forall i | 0 <= i < |pairs|
      ensures pairs[i].0 in Groups(rows)
    {
      assert Keys(pairs)[i] == pairs[i].0;
    }
    TotalSizeCovers(pairs, Groups(rows));
    RetainedCount(rows);
  }

  /** The body of the loop over the groups: sort the group's times, then take the mean gap and the span when there are two or more. */
  method ProfileGroup(mac: string, groupTimes: seq<real>) returns (profile: Profile)
    ensures profile == ProfileOf(mac, groupTimes)
    ensures profile.mac == Lower(mac) && profile.frameCount == |groupTimes| && profile.totalTime >= 0.0
    ensures |groupTimes| > 1 ==> profile.meanGap == profile.totalTime / (|groupTimes| - 1) as real
    ensures |groupTimes| <= 1 ==> profile.meanGap == 0.0 && profile.totalTime == 0.0
  {
    ProfileCounts(mac, groupTimes);
    var times := SortTimes(groupTimes);
    var meanGap, totalTime := 0.0, 0.0;
    if |times| > 1 {
      meanGap := Mean(Gaps(times));
      totalTime := times[|times| - 1] - times[0];
    }
    profile := Profile(Lower(mac), meanGap, totalTime, |times|);
  }

  /** The profile of every group, in the order `groupby` visits them. */
  function ProfilesOf(rows: seq<TimeRow>): (r: seq<Profile>)
    ensures |r| == |Groups(rows)|
  {
    var df := Retained(rows);
    var groups := Groups(rows);
    seq(|groups|, k requires 0 <= k < |groups| => ProfileOf(MacOf(groups[k]), Select(df, groups[k])))
  }

  /** The loop over `df.groupby("mac")`: one profile per MAC, ascending by MAC; the frame counts add up to the rows kept. */
  method BuildTemporalProfiles(rows: seq<TimeRow>) returns (profiles: seq<Profile>)
    ensures profiles == ProfilesOf(rows)
    ensures FrameTotal(profiles) == CompleteRows(rows)
  {
    var df := Retained(rows);
    var groups := Groups(rows);
    ghost var all := ProfilesOf(rows);
    profiles := [];
    var k := 0;
    while k < |groups|
      invariant 0 <= k <= |groups|
      invariant profiles == all[..k]
    {
      var profile := ProfileGroup(MacOf(groups[k]), Select(df, groups[k]));
      assert all[..k + 1] == all[..k] + [profile];
      profiles := profiles + [profile];
      k := k + 1;
    }
    assert all[..k] == all;
    FrameCountsAddUp(rows);
  }

  /** The profiles of all groups count every kept row once: their frame counts add up to the kept rows. */
  lemma FrameCountsAddUp(rows: seq<TimeRow>)
    ensures FrameTotal(ProfilesOf(rows)) == CompleteRows(rows)
  {
    var df := Retained(rows);
    var groups := Groups(rows);
    var profiles := ProfilesOf(rows);
    forall g | 0 <= g < |groups|
      ensures profiles[g].frameCount == |Select(df, groups[g])|
    {
      ProfileCounts(MacOf(groups[g]), Select(df, groups[g]));
    }
    FrameTotalIsTotalSize(profiles, df, groups);
    GroupsCoverRows(rows);
  }
}
