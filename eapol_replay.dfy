/**
 * WiFi/EAPOLReplayAttackDetection/EAPOLReplayAttackDetection.py: EAPOL frames
 * are counted per source MAC, and a source that sent more than three is
 * reported as a possible replay.
 */
module EapolReplayDetection {
  import opened Common
  import opened TsharkOutput
  import opened Grouping

  /** More EAPOL messages than this from one source are reported. */
  const ReplayThreshold: nat := 3

  datatype Outcome =
    | NotWifi                                      // no frame has encapsulation type 23
    | Crashed(why: Crash)                          // an EAPOL line held more than one tab
    | Checked(replays: seq<(string, nat)>, found: bool) // `found` false: "No EAPOL Replay Attack Found."

  /** One EAPOL line: skipped (`None`), its (source MAC, EAPOL type), or the exception it raises. */
  function EapolLine(line: string): Option<Result<(string, string)>> {
    if !IsFieldLine(line) then None
    else match SplitTabPair(line)
      case Err(e) => Some(Err(e))
      case Ok(fields) => Some(Ok(fields))
  }

  /** The (source MAC, EAPOL type) pairs of the EAPOL lines in order, or the exception the first bad line raises. */
  function EapolPairs(lines: seq<string>): (r: Result<seq<(string, string)>>)
    ensures r.Ok? ==> |r.value| <= |lines|
    decreases |lines|
  {
    if lines == [] then Ok([])
    else match EapolPairs(lines[..|lines| - 1])
      case Err(e) => Err(e)
      case Ok(ps) =>
        match EapolLine(lines[|lines| - 1])
        case None => Ok(ps)
        case Some(Err(e)) => Err(e)
        case Some(Ok(p)) => Ok(ps + [p])
  }

  lemma EapolPairsNext(lines: seq<string>, i: nat, ps: seq<(string, string)>)
    requires i < |lines| && EapolPairs(lines[..i]) == Ok(ps)
    ensures EapolPairs(lines[..i + 1]) ==
      match EapolLine(lines[i])
      case None => Ok(ps)
      case Some(Err(e)) => Err(e)
      case Some(Ok(p)) => Ok(ps + [p])
  {
    assert lines[..i + 1][..i] == lines[..i];
  }

  lemma {:induction false} EapolPairsErrStays(lines: seq<string>, i: nat)
    requires i <= |lines| && EapolPairs(lines[..i]).Err?
    ensures EapolPairs(lines) == EapolPairs(lines[..i])
    decreases |lines| - i
  {
    if i < |lines| {
      assert lines[..i + 1][..i] == lines[..i];
      EapolPairsErrStays(lines, i + 1);
    } else {
      assert lines[..i] == lines;
    }
  }

  /** The script counts every line that holds a tab: one pair per such line when none raises. */
  lemma {:induction false} EapolPairsOneEach(lines: seq<string>)
    requires EapolPairs(lines).Ok?
    ensures |EapolPairs(lines).value| == FieldLineCount(lines)
    decreases |lines|
  {
    if lines != [] {
      EapolPairsOneEach(lines[..|lines| - 1]);
    }
  }

  /** `eapol_counts[mac]`: the number of EAPOL frames from `mac`. */
  function EapolCount(pairs: seq<(string, string)>, mac: string): nat {
    |Select(pairs, mac)|
  }

  /** The (MAC, count) entries among `macs` (dict order) whose count exceeds the threshold. */
  function Flagged(pairs: seq<(string, string)>, macs: seq<string>): (r: seq<(string, nat)>)
    ensures |r| <= |macs|
  {
    if macs == [] then []
    else
      var rest := Flagged(pairs, macs[..|macs| - 1]);
      var mac := macs[|macs| - 1];
      if EapolCount(pairs, mac) > ReplayThreshold then rest + [(mac, EapolCount(pairs, mac))] else rest
  }

  /** An entry is flagged iff its key is among `macs` with a count above the threshold, and it carries that count. */
  lemma {:induction false} FlaggedMember(pairs: seq<(string, string)>, macs: seq<string>, e: (string, nat))
    ensures e in Flagged(pairs, macs) <==> e.0 in macs && e.1 == EapolCount(pairs, e.0) && e.1 > ReplayThreshold
    decreases |macs|
  {
    if macs != [] {
      var init := macs[..|macs| - 1];
      var mac := macs[|macs| - 1];
      FlaggedMember(pairs, init, e);
      assert macs == init + [mac];
      assert e.0 in macs <==> e.0 in init || e.0 == mac;
    }
  }

  /** One more key visited: it is reported after the others when its count is above the threshold. */
  lemma FlaggedNext(pairs: seq<(string, string)>, macs: seq<string>, mac: string)
    ensures Flagged(pairs, macs + [mac]) ==
      Flagged(pairs, macs) + (if EapolCount(pairs, mac) > ReplayThreshold then [(mac, EapolCount(pairs, mac))] else [])
  {
    assert (macs + [mac])[..|macs|] == macs;
  }

  /** The report of the loop over `eapol_counts`, in dict (first-seen) order. */
  function Replays(pairs: seq<(string, string)>): seq<(string, nat)> {
    Flagged(pairs, Distinct(Keys(pairs)))
  }

  /** A source is reported iff it sent more than three EAPOL frames, and the report carries its count. */
  lemma ReplaysExactly(pairs: seq<(string, string)>, mac: string, count: nat)
    ensures (mac, count) in Replays(pairs) <==> count == EapolCount(pairs, mac) && count > ReplayThreshold
  {
    SelectNonEmpty(pairs, mac);
    DistinctMember(Keys(pairs), mac);
    FlaggedMember(pairs, Distinct(Keys(pairs)), (mac, count));
  }

  /** The counts of `eapol_counts` add up to the number of EAPOL frames read. */
  lemma CountsAddUp(pairs: seq<(string, string)>)
    ensures TotalSize(pairs, Distinct(Keys(pairs))) == |pairs|
  {
    var ks := Distinct(Keys(pairs));
    forall i | 0 <= i < |pairs|
      ensures pairs[i].0 in ks
    {
      assert Keys(pairs)[i] == pairs[i].0;
      DistinctMember(Keys(pairs), pairs[i].0);
    }
    TotalSizeCovers(pairs, ks);
  }

  /** `order` and `m` are the keys (in insertion order) and values of `eapol_counts` after `pairs`. */
  ghost predicate IsCountDict(pairs: seq<(string, string)>, order: seq<string>, m: map<string, nat>) {
    && order == Distinct(Keys(pairs))
    && (forall s :: s in m <==> s in order)
    && (forall s :: s in m ==> m[s] == EapolCount(pairs, s))
  }

  /** Every key in the insertion order has its count in the dict. */
  lemma CountDictLookup(pairs: seq<(string, string)>, order: seq<string>, m: map<string, nat>, k: nat)
    requires IsCountDict(pairs, order, m) && k < |order|
    ensures order[k] in m && m[order[k]] == EapolCount(pairs, order[k])
  {
    assert order[k] in order;
  }

  lemma CountOrderAdd(pairs: seq<(string, string)>, order: seq<string>, m: map<string, nat>, mac: string, eapolType: string)
    requires IsCountDict(pairs, order, m)
    ensures (if mac in m then order else order + [mac]) == Distinct(Keys(pairs + [(mac, eapolType)]))
  {
    KeysSnoc(pairs, (mac, eapolType));
    DistinctSnoc(Keys(pairs), mac);
    DistinctMember(Keys(pairs), mac);
  }

  lemma CountMapAdd(pairs: seq<(string, string)>, order: seq<string>, m: map<string, nat>, mac: string, eapolType: string)
    requires IsCountDict(pairs, order, m)
    ensures var m' := m[mac := (if mac in m then m[mac] else 0) + 1];
      forall s :: s in m' ==> m'[s] == EapolCount(pairs + [(mac, eapolType)], s)
  {
    var m' := m[mac := (if mac in m then m[mac] else 0) + 1];
    forall s | s in m'
      ensures m'[s] == EapolCount(pairs + [(mac, eapolType)], s)
    {
      SelectSnoc(pairs, (mac, eapolType), s);
      if s == mac && mac !in m {
        DistinctMember(Keys(pairs), mac);
        SelectNonEmpty(pairs, mac);
      }
    }
  }

  /** `eapol_counts[mac_address] += 1` on the `defaultdict(int)`: a missing key starts at 0. */
  method AddEapol(ghost pairs: seq<(string, string)>, order: seq<string>, m: map<string, nat>, mac: string, ghost eapolType: string)
    returns (order': seq<string>, m': map<string, nat>)
    requires IsCountDict(pairs, order, m)
    ensures IsCountDict(pairs + [(mac, eapolType)], order', m')
  {
    order', m' := order, m;
    if mac !in m' {
      order' := order' + [mac];
      m' := m'[mac := 0];
    }
    m' := m'[mac := m'[mac] + 1];
    assert m' == m[mac := (if mac in m then m[mac] else 0) + 1];
    CountOrderAdd(pairs, order, m, mac, eapolType);
    CountMapAdd(pairs, order, m, mac, eapolType);
  }

  /** Step 3 of the script: fills `eapol_counts`, or stops at the first line that raises. */
  method CountEapol(lines: seq<string>) returns (r: Result<(seq<string>, map<string, nat>)>)
    ensures r.Ok? <==> EapolPairs(lines).Ok?
    ensures r.Err? ==> r.error == EapolPairs(lines).error
    ensures r.Ok? ==> IsCountDict(EapolPairs(lines).value, r.value.0, r.value.1)
  {
    var order: seq<string> := [];
    var eapolCounts: map<string, nat> := map[];
    ghost var pairs: seq<(string, string)> := [];
    var i := 0;
    while i < |lines|
      invariant 0 <= i <= |lines|
      invariant EapolPairs(lines[..i]) == Ok(pairs)
      invariant IsCountDict(pairs, order, eapolCounts)
    {
      EapolPairsNext(lines, i, pairs);
      match EapolLine(lines[i]) {
        case None =>
        case Some(Err(e)) =>
          EapolPairsErrStays(lines, i + 1);
          return Err(e);
        case Some(Ok((mac, eapolType))) =>
          order, eapolCounts := AddEapol(pairs, order, eapolCounts, mac, eapolType);
          pairs := pairs + [(mac, eapolType)];
      }
      i := i + 1;
    }
    assert lines[..i] == lines;
    assert EapolPairs(lines) == Ok(pairs);
    return Ok((order, eapolCounts));
  }

  /** Each key of `order` has its count in `m`. */
  ghost predicate CountsKnown(pairs: seq<(string, string)>, order: seq<string>, m: map<string, nat>) {
    forall k :: 0 <= k < |order| ==> order[k] in m && m[order[k]] == EapolCount(pairs, order[k])
  }

  /** A filled `eapol_counts` knows the count of every key, and walking its keys gives the report. */
  lemma CountDictKnown(pairs: seq<(string, string)>, order: seq<string>, m: map<string, nat>)
    requires IsCountDict(pairs, order, m)
    ensures CountsKnown(pairs, order, m) && Flagged(pairs, order) == Replays(pairs)
  {
    forall k | 0 <= k < |order|
      ensures order[k] in m && m[order[k]] == EapolCount(pairs, order[k])
    {
      CountDictLookup(pairs, order, m, k);
    }
  }

  /** Step 4 of the script: walks `eapol_counts` in insertion order and reports counts above three. */
  method ReportReplays(order: seq<string>, eapolCounts: map<string, nat>, ghost pairs: seq<(string, string)>)
    returns (replays: seq<(string, nat)>, found: bool)
    requires CountsKnown(pairs, order, eapolCounts)
    ensures replays == Flagged(pairs, order)
    ensures found <==> replays != []
  {
    found := false;
    replays := [];
    var k := 0;
    while k < |order|
      invariant 0 <= k <= |order|
      invariant replays == Flagged(pairs, order[..k])
      invariant found <==> replays != []
    {
      var mac := order[k];
      assert order[..k + 1] == order[..k] + [mac];
      FlaggedNext(pairs, order[..k], mac);
      var count := eapolCounts[mac];
      if count > ReplayThreshold {
        found := true;
        replays := replays + [(mac, count)];
      }
      k := k + 1;
    }
    assert order[..k] == order;
  }

  /** The script, given the text of its two tshark runs. */
  method EapolReplayScript(encapOutput: string, eapolOutput: string) returns (r: Outcome)
    ensures !CarriesWifi(encapOutput) ==> r == NotWifi
    ensures CarriesWifi(encapOutput) && EapolPairs(OutputLines(eapolOutput)).Err? ==>
      r == Crashed(EapolPairs(OutputLines(eapolOutput)).error)
    ensures CarriesWifi(encapOutput) && EapolPairs(OutputLines(eapolOutput)).Ok? ==>
      r.Checked? && r.replays == Replays(EapolPairs(OutputLines(eapolOutput)).value)
    ensures r.Checked? ==> (r.found <==> r.replays != [])
  {
    if !CarriesWifi(encapOutput) {
      return NotWifi;
    }
    var lines := OutputLines(eapolOutput);
    var counted := CountEapol(lines);
    if counted.Err? {
      return Crashed(counted.error);
    }
    var (order, eapolCounts) := counted.value;
    CountDictKnown(EapolPairs(lines).value, order, eapolCounts);
    var replays, found := ReportReplays(order, eapolCounts, EapolPairs(lines).value);
    return Checked(replays, found);
  }
}
