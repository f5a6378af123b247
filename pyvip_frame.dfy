/**
 * How the four pyvip detectors under WiFi/pyvip read tshark's output: the
 * stripped output is cut at newlines, every non-empty line is stripped and cut
 * at commas as it stands (tshark's header line and its double quotes are kept),
 * and that list of rows becomes a pandas DataFrame with fixed column names.
 */
module PyvipFrame {
  import opened Common
  import opened Text
  import opened Grouping
  import opened TsharkOutput

  /** A DataFrame cell; `None` where a short row was padded. */
  type Cell = Option<string>

  /** The lines the comprehension keeps: `if line` drops the empty ones, order kept. */
  function NonEmptyLines(lines: seq<string>): (r: seq<string>)
    ensures forall l :: l in r <==> l in lines && l != ""
    decreases |lines|
  {
    if lines == [] then []
    else
      var last := lines[|lines| - 1];
      assert lines == lines[..|lines| - 1] + [last];
      NonEmptyLines(lines[..|lines| - 1]) + (if last != "" then [last] else [])
  }

  /** Every row has at least one field, and no field holds a comma. */
  predicate WellSplit(rows: seq<seq<string>>) {
    forall i :: 0 <= i < |rows| ==> |rows[i]| >= 1 && forall j :: 0 <= j < |rows[i]| ==> ',' !in rows[i][j]
  }

  /** `[line.strip().split(",") for line in result.stdout.strip().split("\n") if line]`. */
  function FieldRows(stdout: string): (rows: seq<seq<string>>)
    ensures |rows| == |NonEmptyLines(OutputLines(stdout))|
    ensures WellSplit(rows)
  {
    var lines := NonEmptyLines(OutputLines(stdout));
    seq(|lines|, i requires 0 <= i < |lines| => Split(Strip(lines[i]), ','))
  }

  /** The cut loses nothing: a row joined back with commas is its stripped line. */
  lemma FieldRowsRoundTrip(stdout: string, i: nat)
    requires i < |FieldRows(stdout)|
    ensures Join(FieldRows(stdout)[i], ",") == Strip(NonEmptyLines(OutputLines(stdout))[i])
  {
    JoinSplit(Strip(NonEmptyLines(OutputLines(stdout))[i]), ',');
  }

  /** The number of fields of the widest row. */
  function MaxWidth(rows: seq<seq<string>>): (w: nat)
    ensures forall i :: 0 <= i < |rows| ==> |rows[i]| <= w
    ensures rows != [] ==> exists i :: 0 <= i < |rows| && |rows[i]| == w
    ensures rows == [] ==> w == 0
    decreases |rows|
  {
    if rows == [] then 0
    else
      var w := MaxWidth(rows[..|rows| - 1]);
      var last := |rows[|rows| - 1]|;
      assert forall i :: 0 <= i < |rows| - 1 ==> rows[..|rows| - 1][i] == rows[i];
      if last > w then last else w
  }

  /** A row of `fields` in a frame of `width` columns: the missing trailing cells are `None`. */
  function Pad(fields: seq<string>, width: nat): (cells: seq<Cell>)
    requires |fields| <= width
    ensures |cells| == width
  {
    seq(width, j requires 0 <= j < width => if j < |fields| then Some(fields[j]) else None)
  }

  /** The fields a frame row holds: its leading cells that are not `None`. */
  function Unpad(cells: seq<Cell>): seq<string> {
    if cells == [] || cells[0].None? then [] else [cells[0].value] + Unpad(cells[1..])
  }

  /** Padding loses no field and invents none. */
  lemma {:induction false} UnpadPad(fields: seq<string>, width: nat)
    requires |fields| <= width
    ensures Unpad(Pad(fields, width)) == fields
    decreases width
  {
    if width > 0 && fields != [] {
      assert Pad(fields, width)[1..] == Pad(fields[1..], width - 1);
      UnpadPad(fields[1..], width - 1);
    }
  }

  /** `frame` holds `rows`, each padded to `width` cells. */
  predicate Holds(frame: seq<seq<Cell>>, rows: seq<seq<string>>, width: nat) {
    && |frame| == |rows|
    && forall i :: 0 <= i < |rows| ==> |rows[i]| <= width && frame[i] == Pad(rows[i], width)
  }

  /**
   * `pd.DataFrame(data, columns=...)` with `width` column names. The rows are
   * padded to the widest one, and pandas raises ValueError ("N columns passed,
   * passed data had M columns") unless that width is the number of names.
   */
  function Frame(rows: seq<seq<string>>, width: nat): (r: Result<seq<seq<Cell>>>)
    ensures r.Ok? <==>
      (rows == [] || ((forall i :: 0 <= i < |rows| ==> |rows[i]| <= width) && exists i :: 0 <= i < |rows| && |rows[i]| == width))
    ensures r.Err? ==> r.error == ColumnCountMismatch
    ensures r.Ok? ==> Holds(r.value, rows, width)
  {
    if rows != [] && MaxWidth(rows) != width then Err(ColumnCountMismatch)
    else Ok(seq(|rows|, i requires 0 <= i < |rows| => Pad(rows[i], width)))
  }

  /** A frame that holds some rows holds all but the last, and the last padded. */
  lemma HoldsInit(frame: seq<seq<Cell>>, rows: seq<seq<string>>, width: nat)
    requires Holds(frame, rows, width) && rows != []
    ensures Holds(frame[..|rows| - 1], rows[..|rows| - 1], width)
    ensures |rows[|rows| - 1]| <= width && frame[|rows| - 1] == Pad(rows[|rows| - 1], width)
    ensures frame == frame[..|rows| - 1] + [frame[|rows| - 1]]
    ensures rows == rows[..|rows| - 1] + [rows[|rows| - 1]]
  {
  }

  /** Distinct rows give distinct frame rows: a frame row is in the frame exactly when its fields are a row. */
  lemma FrameMember(frame: seq<seq<Cell>>, rows: seq<seq<string>>, width: nat, fields: seq<string>)
    requires Holds(frame, rows, width) && |fields| <= width
    ensures Pad(fields, width) in frame <==> fields in rows
  {
    if Pad(fields, width) in frame {
      var i :| 0 <= i < |frame| && frame[i] == Pad(fields, width);
      UnpadPad(fields, width);
      UnpadPad(rows[i], width);
    }
    if fields in rows {
      var i :| 0 <= i < |rows| && rows[i] == fields;
      assert frame[i] == Pad(fields, width);
    }
  }

  /** The first field of a row (`""` for a row without fields). */
  function First(fields: seq<string>): string {
    if fields == [] then "" else fields[0]
  }

  /** The first field of each row. */
  function Firsts(rows: seq<seq<string>>): (r: seq<string>)
    ensures |r| == |rows|
  {
    seq(|rows|, i requires 0 <= i < |rows| => First(rows[i]))
  }

  lemma FirstsInit(rows: seq<seq<string>>)
    requires rows != []
    ensures Firsts(rows) == Firsts(rows[..|rows| - 1]) + [First(rows[|rows| - 1])]
  {
  }

  /** The keyed cells that are not null, unwrapped: the cells pandas `count()` counts. */
  function Present<K>(ps: seq<(K, Cell)>): (r: seq<(K, string)>)
    ensures |r| <= |ps|
    decreases |ps|
  {
    if ps == [] then []
    else
      var last := ps[|ps| - 1];
      Present(ps[..|ps| - 1]) + (if last.1.Some? then [(last.0, last.1.value)] else [])
  }

  lemma {:induction false} PresentMember<K>(ps: seq<(K, Cell)>, k: K, v: string)
    ensures (k, v) in Present(ps) <==> (k, Some(v)) in ps
    decreases |ps|
  {
    if ps != [] {
      var p := ps[..|ps| - 1];
      PresentMember(p, k, v);
      assert ps == p + [ps[|ps| - 1]];
    }
  }

  lemma {:induction false} PresentKeys<K>(ps: seq<(K, Cell)>, k: K)
    requires k in Keys(Present(ps))
    ensures k in Keys(ps)
    decreases |ps|
  {
    var p := ps[..|ps| - 1];
    var last := ps[|ps| - 1];
    KeysSnoc(p, last);
    assert ps == p + [last];
    if last.1.Some? {
      KeysSnoc(Present(p), (last.0, last.1.value));
      if k != last.0 {
        PresentKeys(p, k);
      }
    } else {
      assert Present(ps) == Present(p) + [] == Present(p);
      PresentKeys(p, k);
    }
  }

  lemma {:induction false} PresentNoDuplicates<K>(ps: seq<(K, Cell)>)
    requires NoDuplicates(ps)
    ensures NoDuplicates(Present(ps))
    decreases |ps|
  {
    if ps != [] {
      var p := ps[..|ps| - 1];
      var last := ps[|ps| - 1];
      assert NoDuplicates(p) by {
        forall i, j | 0 <= i < j < |p|
          ensures p[i] != p[j]
        {
          assert p[i] == ps[i] && p[j] == ps[j];
        }
      }
      PresentNoDuplicates(p);
      if last.1.Some? {
        var q: seq<(K, string)> := Present(p);
        var x: (K, string) := (last.0, last.1.value);
        var qx := q + [x];
        PresentMember(p, last.0, last.1.value);
        assert last !in p by {
          forall i | 0 <= i < |p|
            ensures p[i] != last
          {
            assert p[i] == ps[i];
          }
        }
        assert Present(ps) == qx;
        forall i, j | 0 <= i < j < |qx|
          ensures qx[i] != qx[j]
        {
          if j == |q| {
            assert qx[i] == q[i];
          } else {
            assert qx[i] == q[i] && qx[j] == q[j];
          }
        }
      } else {
        assert Present(ps) == Present(p) + [] == Present(p);
      }
    }
  }

  /** Where no cell is null, every key counts all of its rows. */
  lemma {:induction false} PresentAll<K>(ps: seq<(K, Cell)>, k: K)
    requires forall i :: 0 <= i < |ps| ==> ps[i].1.Some?
    ensures |Select(Present(ps), k)| == |Select(ps, k)|
    decreases |ps|
  {
    if ps != [] {
      var p := ps[..|ps| - 1];
      var last := ps[|ps| - 1];
      PresentAll(p, k);
      SelectSnoc(Present(p), (last.0, last.1.value), k);
      assert Present(ps) == Present(p) + [(last.0, last.1.value)];
      assert ps == p + [last];
      SelectSnoc(p, last, k);
    }
  }
}
